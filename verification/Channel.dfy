// The unbounded channel: a linked queue under a mutex and a condition variable,
// used by any number of threads, one shared access a step.
module Channel {
  import opened Threads

  type Val = nat
  type NodeId = nat

  datatype Node = Node(next: Option<NodeId>, value: Val)

  // The access a thread does next. A get with last set does not wait any more:
  // it is non-blocking, or its time is out. gone records the value dequeued.
  datatype PC =
    | Idle
    | PutLock(n: NodeId)
    | PutLink(n: NodeId)                      // hang the node on the tail, or the head
    | PutTail(n: NodeId)
    | PutSignal
    | PutUnlock
    | GetLock(timed: bool, last: bool)
    | GetCheck(timed: bool, last: bool)       // is there a head?
    | Asleep(timed: bool)                     // in the condition wait
    | GetUnlink(n: NodeId)
    | GetFixTail(n: NodeId, gone: Val)
    | GetUnlock(n: NodeId, gone: Val)
    | GetRead(n: NodeId, gone: Val)
    | GetFree(n: NodeId, gone: Val, v: Val)
    | GetNothing                              // unlock and return Nothing

  // asleep: the threads no signal has reached yet. list, hands, puts, gets and
  // returned record history: the queue's nodes, who holds each node outside
  // it, the values put and taken in lock order, the values handed to callers.
  datatype Shared = Shared(nodes: map<NodeId, Node>, unused: NodeId, head: Option<NodeId>, tail: Option<NodeId>,
                           lock: Holder, asleep: set<Tid>, list: seq<NodeId>, hands: map<NodeId, Tid>,
                           puts: seq<Val>, gets: seq<Val>, returned: multiset<Val>)

  datatype State = State(g: Shared, pcs: seq<PC>)

  // What the program does next, whom a signal wakes, and why a wait ends.
  datatype Choice = Put(v: Val) | Get | TryGet | TimedGet | Proceed | Wake(t: Tid) | Spurious | Timeout

  predicate Ready(g: Shared, pc: PC, t: Tid, c: Choice) {
    match pc
    case Idle => c.Put? || c.Get? || c.TryGet? || c.TimedGet?
    case PutLock(_) => g.lock == Free
    case PutLink(n) => n in g.nodes && (g.tail.Some? ==> g.tail.value in g.nodes)
    case PutSignal => if g.asleep == {} then c == Proceed else c.Wake? && c.t in g.asleep
    case GetLock(_, _) => g.lock == Free
    case Asleep(timed) => (c == Proceed && t !in g.asleep) || c == Spurious || (c == Timeout && timed)
    case GetUnlink(n) => n in g.nodes && g.list != []
    case GetRead(n, _) => n in g.nodes
    case _ => true
  }

  // One step of thread t.
  function Act(g: Shared, pc: PC, t: Tid, c: Choice): (Shared, PC)
    requires Ready(g, pc, t, c)
  {
    match pc
    case Idle =>
      (match c
       case Put(v) =>
         var n := g.unused;
         (g.(nodes := g.nodes[n := Node(None, v)], unused := n + 1, hands := g.hands[n := t]), PutLock(n))
       case Get => (g, GetLock(false, false))
       case TryGet => (g, GetLock(false, true))
       case _ => (g, GetLock(true, false)))
    case PutLock(n) => (g.(lock := Held(t)), PutLink(n))
    case PutLink(n) =>
      var linked := g.(list := g.list + [n], hands := g.hands - {n}, puts := g.puts + [g.nodes[n].value]);
      (match g.tail
       case Some(last) => linked.(nodes := g.nodes[last := g.nodes[last].(next := Some(n))])
       case None => linked.(head := Some(n)),
       PutTail(n))
    case PutTail(n) => (g.(tail := Some(n)), PutSignal)
    case PutSignal => (if c.Wake? then g.(asleep := g.asleep - {c.t}) else g, PutUnlock)
    case PutUnlock => (g.(lock := Free), Idle)
    case GetLock(timed, last) => (g.(lock := Held(t)), GetCheck(timed, last))
    case GetCheck(timed, last) =>
      if g.head.Some? then (g, GetUnlink(g.head.value))
      else if last then (g, GetNothing)
      else (g.(lock := Free, asleep := g.asleep + {t}), Asleep(timed))
    case Asleep(timed) => (g.(asleep := g.asleep - {t}), GetLock(timed, c == Timeout))
    case GetUnlink(n) =>
      var v := g.nodes[n].value;
      (g.(head := g.nodes[n].next, list := g.list[1..], hands := g.hands[n := t], gets := g.gets + [v]), GetFixTail(n, v))
    case GetFixTail(n, gone) => (if g.head == None then g.(tail := None) else g, GetUnlock(n, gone))
    case GetUnlock(n, gone) => (g.(lock := Free), GetRead(n, gone))
    case GetRead(n, gone) => (g, GetFree(n, gone, g.nodes[n].value))
    case GetFree(n, gone, v) => (g.(nodes := g.nodes - {n}, hands := g.hands - {n}, returned := g.returned + multiset{v}), Idle)
    case GetNothing => (g.(lock := Free), Idle)
  }

  predicate Enabled(s: State, t: Tid, c: Choice) { t < |s.pcs| && Ready(s.g, s.pcs[t], t, c) }

  function Step(s: State, t: Tid, c: Choice): State
    requires Enabled(s, t, c)
  {
    var (g, pc) := Act(s.g, s.pcs[t], t, c);
    State(g, s.pcs[t := pc])
  }

  ghost predicate Next(s: State, s': State) {
    exists t: Tid, c :: Enabled(s, t, c) && s' == Step(s, t, c)
  }

  ghost predicate Init(s: State) {
    && s.g == Shared(map[], 0, None, None, Free, {}, [], map[], [], [], multiset{})
    && forall t :: 0 <= t < |s.pcs| ==> s.pcs[t] == Idle
  }

  ghost predicate Run(run: seq<State>) {
    run != [] && Init(run[0]) && forall i :: 0 <= i < |run| - 1 ==> Next(run[i], run[i + 1])
  }

  // ---- the queue ----

  // The nodes of list, in order, are linked from head, and the last ends it.
  ghost predicate Chain(nodes: map<NodeId, Node>, head: Option<NodeId>, list: seq<NodeId>)
    decreases |list|
  {
    if list == [] then head == None
    else head == Some(list[0]) && list[0] in nodes && Chain(nodes, nodes[list[0]].next, list[1..])
  }

  ghost predicate Distinct(list: seq<NodeId>) {
    forall i, j :: 0 <= i < j < |list| ==> list[i] != list[j]
  }

  function Last(list: seq<NodeId>): Option<NodeId> { if list == [] then None else Some(list[|list| - 1]) }

  function Queued(nodes: map<NodeId, Node>, list: seq<NodeId>): seq<Val>
    requires forall n :: n in list ==> n in nodes
  {
    seq(|list|, i requires 0 <= i < |list| => nodes[list[i]].value)
  }

  lemma {:induction false} ChainSame(nodes: map<NodeId, Node>, head: Option<NodeId>, list: seq<NodeId>, nodes': map<NodeId, Node>)
    requires Chain(nodes, head, list) && forall n :: n in list ==> n in nodes && n in nodes' && nodes'[n] == nodes[n]
    ensures Chain(nodes', head, list)
    decreases |list|
  {
    if list != [] { ChainSame(nodes, nodes[list[0]].next, list[1..], nodes'); }
  }

  // Hanging a node on the last one.
  lemma {:induction false} ChainPush(nodes: map<NodeId, Node>, head: Option<NodeId>, list: seq<NodeId>, n: NodeId)
    requires Chain(nodes, head, list) && Distinct(list) && list != [] && n in nodes && n !in list && nodes[n].next == None
    requires forall x :: x in list ==> x in nodes
    ensures var last := list[|list| - 1];
            Chain(nodes[last := nodes[last].(next := Some(n))], head, list + [n])
    decreases |list|
  {
    var last := list[|list| - 1];
    var nodes' := nodes[last := nodes[last].(next := Some(n))];
    assert (list + [n])[1..] == list[1..] + [n];
    if |list| == 1 {
      assert list[1..] + [n] == [n] && [n][1..] == [];
      assert Chain(nodes', nodes'[n].next, [n][1..]);
    } else {
      ChainPush(nodes, nodes[list[0]].next, list[1..], n);
    }
  }

  // ---- the invariant ----

  predicate Locked(pc: PC) {
    pc.PutLink? || pc.PutTail? || pc.PutSignal? || pc.PutUnlock? || pc.GetCheck? || pc.GetUnlink?
    || pc.GetFixTail? || pc.GetUnlock? || pc.GetNothing?
  }

  // The node a thread holds outside the queue.
  predicate Holding(pc: PC) {
    pc.PutLock? || pc.PutLink? || pc.GetFixTail? || pc.GetUnlock? || pc.GetRead? || pc.GetFree?
  }

  predicate MovesTail(pc: PC) { pc.PutTail? || pc.GetFixTail? }

  ghost predicate HoldsOk(g: Shared, pc: PC, t: Tid) {
    && (Locked(pc) <==> g.lock == Held(t))
    && (Holding(pc) ==> pc.n in g.hands && g.hands[pc.n] == t && pc.n in g.nodes)
    && (t in g.asleep ==> pc.Asleep?)
  }

  ghost predicate PcOk(g: Shared, pc: PC, t: Tid) {
    && HoldsOk(g, pc, t)
    && match pc
       case PutLock(n) => g.nodes[n].next == None
       case PutLink(n) => g.nodes[n].next == None
       case PutTail(n) => Last(g.list) == Some(n)
       case GetUnlink(n) => g.head == Some(n)
       case GetFixTail(n, gone) => g.nodes[n].value == gone && (g.list != [] ==> g.tail == Last(g.list))
       case GetUnlock(n, gone) => g.nodes[n].value == gone
       case GetRead(n, gone) => g.nodes[n].value == gone
       case GetFree(n, gone, v) => g.nodes[n].value == gone && v == gone
       case GetNothing => g.list == []
       case _ => true
  }

  // Whoever has a node in hand is at a step that holds it.
  ghost predicate HandsOk(g: Shared, pc: PC, t: Tid) {
    forall n :: n in g.hands && g.hands[n] == t ==> Holding(pc) && pc.n == n
  }

  ghost predicate ThreadOk(g: Shared, pc: PC, t: Tid) { PcOk(g, pc, t) && HandsOk(g, pc, t) }

  ghost predicate QueueOk(g: Shared) {
    && Chain(g.nodes, g.head, g.list) && Distinct(g.list)
    && (forall n :: n in g.list ==> n in g.nodes && n !in g.hands)
    && (forall n :: n in g.nodes ==> n < g.unused && (n in g.list || n in g.hands))
    && (forall n :: n in g.hands ==> n in g.nodes)
    && g.puts == g.gets + Queued(g.nodes, g.list)
  }

  // The tail is the last node, except in the middle of an operation.
  ghost predicate TailOk(s: State) {
    && (s.g.lock.Held? ==> s.g.lock.owner < |s.pcs|)
    && (s.g.tail == Last(s.g.list) || (s.g.lock.Held? && MovesTail(s.pcs[s.g.lock.owner])))
  }

  ghost predicate Protocol(s: State) {
    && QueueOk(s.g) && TailOk(s)
    && (forall n :: n in s.g.hands ==> s.g.hands[n] < |s.pcs|)
    && (forall t :: t in s.g.asleep ==> t < |s.pcs|)
    && forall t :: 0 <= t < |s.pcs| ==> ThreadOk(s.g, s.pcs[t], t)
  }

  // ---- every step keeps it ----

  // The tail as a step relies on it.
  ghost predicate TailAt(g: Shared, pc: PC) { Locked(pc) && !MovesTail(pc) ==> g.tail == Last(g.list) }

  lemma ActQueue(g: Shared, pc: PC, t: Tid, c: Choice)
    requires Ready(g, pc, t, c) && QueueOk(g) && PcOk(g, pc, t) && TailAt(g, pc)
    ensures QueueOk(Act(g, pc, t, c).0)
  {
    match pc {
      case Idle =>
        if c.Put? { AllocQueue(g, t, c.v); }
      case PutLink(n) => LinkQueue(g, n, t, c);
      case GetUnlink(n) => UnlinkQueue(g, n, t, c);
      case GetFree(n, gone, v) => FreeQueue(g, pc, t, c);
      case _ =>
    }
  }

  lemma AllocQueue(g: Shared, t: Tid, v: Val)
    requires QueueOk(g)
    ensures QueueOk(Act(g, Idle, t, Put(v)).0)
  {
    hide Chain, Distinct;
    var g' := Act(g, Idle, t, Put(v)).0;
    ChainSame(g.nodes, g.head, g.list, g'.nodes);
    assert Queued(g'.nodes, g'.list) == Queued(g.nodes, g.list);
  }

  lemma FreeQueue(g: Shared, pc: PC, t: Tid, c: Choice)
    requires QueueOk(g) && PcOk(g, pc, t) && pc.GetFree?
    ensures QueueOk(Act(g, pc, t, c).0)
  {
    hide Chain, Distinct;
    var g' := Act(g, pc, t, c).0;
    ChainSame(g.nodes, g.head, g.list, g'.nodes);
    assert Queued(g'.nodes, g'.list) == Queued(g.nodes, g.list);
  }

  lemma LinkQueue(g: Shared, n: NodeId, t: Tid, c: Choice)
    requires QueueOk(g) && PcOk(g, PutLink(n), t) && g.tail == Last(g.list) && Ready(g, PutLink(n), t, c)
    ensures QueueOk(Act(g, PutLink(n), t, c).0)
  {
    LinkChain(g, n, t, c);
    hide Chain, Distinct;
    var g' := Act(g, PutLink(n), t, c).0;
    assert g.list != [] ==> g.list[|g.list| - 1] in g.list;
    assert Queued(g'.nodes, g'.list) == Queued(g.nodes, g.list) + [g.nodes[n].value];
  }

  lemma LinkChain(g: Shared, n: NodeId, t: Tid, c: Choice)
    requires QueueOk(g) && PcOk(g, PutLink(n), t) && g.tail == Last(g.list) && Ready(g, PutLink(n), t, c)
    ensures var g' := Act(g, PutLink(n), t, c).0; Chain(g'.nodes, g'.head, g'.list) && Distinct(g'.list)
  {
    hide Queued;
    var g' := Act(g, PutLink(n), t, c).0;
    assert n !in g.list;
    if g.list == [] {
      assert [n][1..] == [] && Chain(g'.nodes, g'.nodes[n].next, []);
      assert Chain(g'.nodes, g'.head, [n]);
      assert g'.list == [n];
    } else {
      ChainPush(g.nodes, g.head, g.list, n);
    }
  }

  lemma UnlinkQueue(g: Shared, n: NodeId, t: Tid, c: Choice)
    requires QueueOk(g) && PcOk(g, GetUnlink(n), t) && Ready(g, GetUnlink(n), t, c)
    ensures QueueOk(Act(g, GetUnlink(n), t, c).0)
  {
    hide Chain, Distinct, Queued;
    var rest := g.list[1..];
    FrontIs(g, n);
    QueuedFront(g.nodes, n, rest);
    DistinctFront(n, rest);
    assert g.gets + [g.nodes[n].value] + Queued(g.nodes, rest) == g.gets + ([g.nodes[n].value] + Queued(g.nodes, rest));
  }

  lemma FrontIs(g: Shared, n: NodeId)
    requires QueueOk(g) && g.head == Some(n) && g.list != []
    ensures g.list == [n] + g.list[1..] && n in g.nodes && Chain(g.nodes, g.nodes[n].next, g.list[1..])
  {}

  lemma QueuedFront(nodes: map<NodeId, Node>, n: NodeId, rest: seq<NodeId>)
    requires forall x :: x in [n] + rest ==> x in nodes
    ensures forall x :: x in rest ==> x in nodes
    ensures n in nodes && Queued(nodes, [n] + rest) == [nodes[n].value] + Queued(nodes, rest)
  {
    assert forall x :: x in rest ==> x in [n] + rest;
    assert n in [n] + rest;
  }

  lemma DistinctFront(n: NodeId, rest: seq<NodeId>)
    requires Distinct([n] + rest)
    ensures n !in rest && Distinct(rest)
  {
    var all := [n] + rest;
    assert forall i :: 0 <= i < |rest| ==> rest[i] == all[i + 1];
    assert all[0] == n;
  }

  // What a step of thread t leaves to the others.
  ghost predicate Changes(g: Shared, t: Tid, g': Shared) {
    && (g'.lock != g.lock ==> (g.lock == Free && g'.lock == Held(t)) || (g.lock == Held(t) && g'.lock == Free))
    && (forall u :: u in g'.asleep && u != t ==> u in g.asleep)
    && (forall n :: n in g'.hands && g'.hands[n] != t ==> n in g.hands && g.hands[n] == g'.hands[n])
    && (forall n :: n in g.hands && g.hands[n] != t ==> KeepsNode(g, g', n))
    && (g.lock != Held(t) ==> g'.list == g.list && g'.head == g.head && g'.tail == g.tail)
  }

  ghost predicate KeepsNode(g: Shared, g': Shared, n: NodeId)
    requires n in g.hands
  {
    && n in g'.hands && g'.hands[n] == g.hands[n]
    && (n in g.nodes ==> n in g'.nodes && g'.nodes[n] == g.nodes[n])
  }

  lemma ActChanges(g: Shared, pc: PC, t: Tid, c: Choice)
    requires Ready(g, pc, t, c) && QueueOk(g) && ThreadOk(g, pc, t) && TailAt(g, pc)
    ensures Changes(g, t, Act(g, pc, t, c).0)
  {
    if Moves(pc) {
      MoveChanges(g, pc, t, c);
    } else {
      PlainStep(g, pc, t, c);
      hide Act, QueueOk, Last;
    }
  }

  // The steps that allocate, link, unlink or free a node.
  predicate Moves(pc: PC) { pc.Idle? || pc.PutLink? || pc.GetUnlink? || pc.GetFree? }

  lemma PlainStep(g: Shared, pc: PC, t: Tid, c: Choice)
    requires Ready(g, pc, t, c) && !Moves(pc) && PcOk(g, pc, t)
    ensures var (g', pc') := Act(g, pc, t, c);
            && g'.nodes == g.nodes && g'.hands == g.hands && g'.list == g.list && g'.head == g.head
            && g'.puts == g.puts && g'.gets == g.gets && g'.unused == g.unused
            && (g'.tail != g.tail ==> Locked(pc))
            && (Locked(pc') <==> g'.lock == Held(t))
            && (g'.lock != g.lock ==> (g.lock == Free && g'.lock == Held(t)) || (g.lock == Held(t) && g'.lock == Free))
            && (Holding(pc') ==> Holding(pc) && pc'.n == pc.n) && (Holding(pc) ==> Holding(pc'))
            && (forall u :: u in g'.asleep && u != t ==> u in g.asleep)
            && (t in g'.asleep ==> pc'.Asleep?)
  {}

  lemma MoveChanges(g: Shared, pc: PC, t: Tid, c: Choice)
    requires Ready(g, pc, t, c) && QueueOk(g) && ThreadOk(g, pc, t) && TailAt(g, pc) && Moves(pc)
    ensures Changes(g, t, Act(g, pc, t, c).0)
  {
    hide Chain, Distinct;
    assert g.tail == Last(g.list) && g.list != [] ==> g.tail.value in g.list;
    assert g.list != [] ==> g.list[0] in g.list;
    if pc.GetUnlink? && g.list != [] { HeadIsFirst(g); }
  }

  lemma HeadIsFirst(g: Shared)
    requires QueueOk(g) && g.list != []
    ensures g.head == Some(g.list[0]) && g.list[0] in g.nodes
  {}

  lemma OtherThread(g: Shared, t: Tid, g': Shared, pc: PC, u: Tid)
    requires t != u && ThreadOk(g, pc, u) && Changes(g, t, g')
    ensures ThreadOk(g', pc, u)
  {}

  lemma OwnPc(g: Shared, pc: PC, t: Tid, c: Choice)
    requires Ready(g, pc, t, c) && QueueOk(g) && ThreadOk(g, pc, t) && TailAt(g, pc)
    ensures var (g', pc') := Act(g, pc, t, c); PcOk(g', pc', t)
  {
    OwnHolds(g, pc, t, c);
    hide Act, QueueOk, HoldsOk, Ready, TailAt, PcOk, HandsOk;
    if Moves(pc) { MovePc(g, pc, t, c); } else if Locked(pc) { LockedPc(g, pc, t, c); } else { UnlockedPc(g, pc, t, c); }
  }

  lemma MovePc(g: Shared, pc: PC, t: Tid, c: Choice)
    requires Ready(g, pc, t, c) && QueueOk(g) && PcOk(g, pc, t) && TailAt(g, pc) && Moves(pc)
    requires HoldsOk(Act(g, pc, t, c).0, Act(g, pc, t, c).1, t)
    ensures var (g', pc') := Act(g, pc, t, c); PcOk(g', pc', t)
  {
    hide Chain, Distinct, HoldsOk;
    if g.list != [] { HeadIsFirst(g); }
  }

  lemma LockedPc(g: Shared, pc: PC, t: Tid, c: Choice)
    requires Ready(g, pc, t, c) && QueueOk(g) && PcOk(g, pc, t) && TailAt(g, pc) && Locked(pc) && !Moves(pc)
    requires HoldsOk(Act(g, pc, t, c).0, Act(g, pc, t, c).1, t)
    ensures var (g', pc') := Act(g, pc, t, c); PcOk(g', pc', t)
  {
    if g.list == [] { EmptyHead(g); } else { HeadIsFirst(g); }
    hide QueueOk, HoldsOk;
  }

  lemma UnlockedPc(g: Shared, pc: PC, t: Tid, c: Choice)
    requires Ready(g, pc, t, c) && PcOk(g, pc, t) && !Locked(pc) && !Moves(pc)
    requires HoldsOk(Act(g, pc, t, c).0, Act(g, pc, t, c).1, t)
    ensures var (g', pc') := Act(g, pc, t, c); PcOk(g', pc', t)
  {}

  lemma OwnHolds(g: Shared, pc: PC, t: Tid, c: Choice)
    requires Ready(g, pc, t, c) && QueueOk(g) && PcOk(g, pc, t)
    ensures var (g', pc') := Act(g, pc, t, c); HoldsOk(g', pc', t)
  {
    if Moves(pc) {
      MoveHolds(g, pc, t, c);
    } else {
      PlainStep(g, pc, t, c);
      hide Act, QueueOk;
    }
  }

  lemma MoveHolds(g: Shared, pc: PC, t: Tid, c: Choice)
    requires Ready(g, pc, t, c) && QueueOk(g) && PcOk(g, pc, t) && Moves(pc)
    ensures var (g', pc') := Act(g, pc, t, c); HoldsOk(g', pc', t)
  {
    hide Chain, Distinct;
    if g.list != [] { HeadIsFirst(g); }
  }

  lemma OwnHands(g: Shared, pc: PC, t: Tid, c: Choice)
    requires Ready(g, pc, t, c) && QueueOk(g) && ThreadOk(g, pc, t)
    ensures var (g', pc') := Act(g, pc, t, c); HandsOk(g', pc', t)
  {
    hide Chain, Distinct;
  }

  lemma ActTail(g: Shared, pc: PC, t: Tid, c: Choice)
    requires Ready(g, pc, t, c) && QueueOk(g) && ThreadOk(g, pc, t) && TailAt(g, pc)
    ensures var (g', pc') := Act(g, pc, t, c);
            && (Locked(pc) && !MovesTail(pc') ==> g'.tail == Last(g'.list))
            && (!Locked(pc) ==> g'.tail == g.tail && g'.list == g.list && (g.lock == Free || g'.lock == g.lock))
            && (Locked(pc) ==> g'.lock == Held(t) || g'.lock == Free)
            && (MovesTail(pc') ==> g'.lock == Held(t))
  {
    hide Chain, Distinct;
    if g.list != [] { HeadIsFirst(g); } else { EmptyHead(g); }
  }

  lemma EmptyHead(g: Shared)
    requires QueueOk(g) && g.list == []
    ensures g.head == None
  {}

  lemma StepTail(s: State, t: Tid, c: Choice)
    requires Enabled(s, t, c) && QueueOk(s.g) && TailOk(s) && ThreadOk(s.g, s.pcs[t], t)
    ensures TailOk(Step(s, t, c))
  {
    LockedAt(s.g, s.pcs[t], t);
    ActTail(s.g, s.pcs[t], t, c);
    hide Act, Ready, ThreadOk, QueueOk, Last, Locked, MovesTail;
  }

  lemma LockedAt(g: Shared, pc: PC, t: Tid)
    requires ThreadOk(g, pc, t)
    ensures Locked(pc) <==> g.lock == Held(t)
    ensures MovesTail(pc) ==> Locked(pc)
  {}

  lemma StepProtocol(s: State, t: Tid, c: Choice)
    requires Enabled(s, t, c) && Protocol(s)
    ensures Protocol(Step(s, t, c))
  {
    hide Act, Ready, QueueOk, PcOk, HandsOk;
    var pc := s.pcs[t];
    assert ThreadOk(s.g, pc, t);
    LockedAt(s.g, pc, t);
    StepTail(s, t, c);
    ActChanges(s.g, pc, t, c);
    ActQueue(s.g, pc, t, c);
    OwnPc(s.g, pc, t, c);
    OwnHands(s.g, pc, t, c);
    var s' := Step(s, t, c);
    forall u | 0 <= u < |s'.pcs| ensures ThreadOk(s'.g, s'.pcs[u], u) {
      if u != t { OtherThread(s.g, t, s'.g, s.pcs[u], u); }
    }
    forall u | u in s'.g.asleep ensures u < |s'.pcs| { if u != t { assert u in s.g.asleep; } }
  }

  // ---- the values on their way out ----

  function GoneOf(v: Val): PC -> nat {
    (pc: PC) => if pc.GetFixTail? || pc.GetUnlock? || pc.GetRead? || pc.GetFree? then One(pc.gone, v) else 0
  }

  ghost predicate OutCount(s: State, v: Val) {
    multiset(s.g.gets)[v] == s.g.returned[v] + Sum(GoneOf(v), s.pcs)
  }

  lemma ActOut(g: Shared, pc: PC, t: Tid, c: Choice, v: Val)
    requires Ready(g, pc, t, c) && ThreadOk(g, pc, t)
    ensures var (g', pc') := Act(g, pc, t, c);
            multiset(g'.gets)[v] + g.returned[v] + GoneOf(v)(pc) == multiset(g.gets)[v] + g'.returned[v] + GoneOf(v)(pc')
  {}

  // ---- no wake-up is lost ----

  // A getter that has yet to look for a value, or a put about to signal.
  function Weight(pc: PC): nat {
    if pc.GetLock? || pc.GetCheck? || pc.GetUnlink? || pc.Asleep? || pc.PutTail? || pc.PutSignal? then 1 else 0
  }

  // While a getter sleeps unsignalled, every queued value has another getter or
  // a signal coming for it.
  ghost predicate WakeOk(s: State) {
    s.g.asleep != {} ==> |s.g.list| + |s.g.asleep| <= Sum(Weight, s.pcs)
  }

  // A step keeps the balance, or leaves the queue empty.
  lemma ActWake(g: Shared, pc: PC, t: Tid, c: Choice)
    requires Ready(g, pc, t, c) && QueueOk(g) && ThreadOk(g, pc, t)
    ensures var (g', pc') := Act(g, pc, t, c);
            || g'.asleep == {} || g'.list == []
            || (g.asleep != {} && |g'.list| + |g'.asleep| + Weight(pc) <= |g.list| + |g.asleep| + Weight(pc'))
  {
    ActAsleep(g, pc, t, c);
    hide Chain, Distinct;
    if g.list != [] { HeadIsFirst(g); } else { EmptyHead(g); }
  }

  // A signal wakes one sleeper; a sleeper that goes on leaves the set.
  lemma ActAsleep(g: Shared, pc: PC, t: Tid, c: Choice)
    requires Ready(g, pc, t, c)
    ensures var (g', pc') := Act(g, pc, t, c);
            && (!pc.PutSignal? && !pc.GetCheck? ==> |g'.asleep| <= |g.asleep| && (g.asleep == {} ==> g'.asleep == {}))
            && (pc.PutSignal? && g.asleep != {} ==> |g'.asleep| == |g.asleep| - 1)
            && (pc.PutSignal? && g.asleep == {} ==> g'.asleep == {})
            && (pc.GetCheck? && !pc'.Asleep? ==> g'.asleep == g.asleep)
  {
    Without(g.asleep, t);
    if c.Wake? { Without(g.asleep, c.t); }
  }

  lemma Without(ids: set<Tid>, t: Tid)
    ensures |ids - {t}| == if t in ids then |ids| - 1 else |ids|
    ensures ids == {} ==> ids - {t} == {}
  {
    assert ids == (ids - {t}) + (ids * {t});
    assert ids * {t} == if t in ids then {t} else {};
  }

  lemma SleepersCounted(s: State)
    requires Protocol(s)
    ensures |s.g.asleep| <= Sum(Weight, s.pcs)
  {
    forall t | t in s.g.asleep ensures t < |s.pcs| && Weight(s.pcs[t]) > 0 {
      assert ThreadOk(s.g, s.pcs[t], t);
    }
    SumCovers(Weight, s.pcs, Idle, s.g.asleep);
  }

  ghost predicate Inv(s: State) { Protocol(s) && WakeOk(s) && forall v :: OutCount(s, v) }

  lemma InitInv(s: State)
    requires Init(s)
    ensures Inv(s)
  {
    forall v ensures OutCount(s, v) { SumZero(GoneOf(v), s.pcs); }
  }

  lemma StepInv(s: State, t: Tid, c: Choice)
    requires Enabled(s, t, c) && Inv(s)
    ensures Inv(Step(s, t, c))
  {
    hide Act, Ready, QueueOk, ThreadOk, TailOk, Weight, Sum;
    StepProtocol(s, t, c);
    var s' := Step(s, t, c);
    assert ThreadOk(s.g, s.pcs[t], t);
    SumAt(Weight, s.pcs, t, s'.pcs[t]);
    ActWake(s.g, s.pcs[t], t, c);
    SleepersCounted(s');
    forall v ensures OutCount(s', v) {
      assert OutCount(s, v);
      SumAt(GoneOf(v), s.pcs, t, s'.pcs[t]);
      ActOut(s.g, s.pcs[t], t, c, v);
    }
  }

  lemma {:induction false} RunInv(run: seq<State>, i: nat)
    requires Run(run) && i < |run|
    ensures Inv(run[i])
  {
    hide Inv, Init, Step, Enabled;
    if i == 0 {
      InitInv(run[0]);
    } else {
      RunInv(run, i - 1);
      assert Next(run[i - 1], run[i - 1 + 1]);
      var t: Tid, c :| Enabled(run[i - 1], t, c) && run[i] == Step(run[i - 1], t, c);
      StepInv(run[i - 1], t, c);
    }
  }

  // ---- over whole runs ----

  // The values put, in lock order, are the values taken and then the values
  // queued along the links from head.
  lemma FirstInFirstOut(run: seq<State>, i: nat)
    requires Run(run) && i < |run|
    ensures var g := run[i].g;
            && Chain(g.nodes, g.head, g.list) && Distinct(g.list) && (forall n :: n in g.list ==> n in g.nodes)
            && g.puts == g.gets + Queued(g.nodes, g.list)
  {
    RunInv(run, i);
  }

  // With the lock free, head is null exactly when tail is, and tail is the
  // last node reached from head.
  lemma EndsAgree(run: seq<State>, i: nat)
    requires Run(run) && i < |run| && run[i].g.lock == Free
    ensures var g := run[i].g;
            && (g.head == None <==> g.tail == None) && (g.head == None <==> g.list == [])
            && g.tail == Last(g.list) && Chain(g.nodes, g.head, g.list)
  {
    RunInv(run, i);
  }

  // No value is lost or handed out twice: what was put is what was returned,
  // what a get has just dequeued and what is queued.
  lemma NothingLost(run: seq<State>, i: nat, v: Val)
    requires Run(run) && i < |run|
    ensures var g := run[i].g;
            && (forall n :: n in g.list ==> n in g.nodes)
            && multiset(g.puts)[v] == g.returned[v] + Sum(GoneOf(v), run[i].pcs) + multiset(Queued(g.nodes, g.list))[v]
  {
    RunInv(run, i);
    assert OutCount(run[i], v);
  }

  // A node is allocated exactly while it is queued or in one thread's hands;
  // with no operation under way, every allocated node is queued.
  lemma NodesExact(run: seq<State>, i: nat, n: NodeId)
    requires Run(run) && i < |run|
    ensures var g := run[i].g; n in g.nodes <==> n in g.list || n in g.hands
    ensures !(n in run[i].g.list && n in run[i].g.hands)
    ensures (forall t :: 0 <= t < |run[i].pcs| ==> !Holding(run[i].pcs[t])) ==> n !in run[i].g.hands
  {
    RunInv(run, i);
    var g := run[i].g;
    if n in g.hands { assert ThreadOk(g, run[i].pcs[g.hands[n]], g.hands[n]); }
  }

  // A value never waits with every getter asleep: another getter is on its way
  // to look, or a put is about to signal.
  lemma NoLostWakeUp(run: seq<State>, i: nat) returns (u: Tid)
    requires Run(run) && i < |run| && run[i].g.list != [] && run[i].g.asleep != {}
    ensures u < |run[i].pcs| && u !in run[i].g.asleep && Weight(run[i].pcs[u]) == 1
  {
    RunInv(run, i);
    u := SumExceeds(Weight, run[i].pcs, Idle, run[i].g.asleep);
  }

  // Whoever holds the lock can take a step, and no step meets a freed node.
  lemma HolderCanStep(run: seq<State>, i: nat) returns (c: Choice)
    requires Run(run) && i < |run| && run[i].g.lock.Held?
    ensures run[i].g.lock.owner < |run[i].pcs| && Enabled(run[i], run[i].g.lock.owner, c)
  {
    RunInv(run, i);
    var s := run[i];
    var t := s.g.lock.owner;
    assert ThreadOk(s.g, s.pcs[t], t);
    c := Proceed;
    if s.pcs[t].PutSignal? && s.g.asleep != {} {
      var u :| u in s.g.asleep;
      c := Wake(u);
    }
    if s.pcs[t].PutLink? && s.g.list != [] { assert s.g.tail.value in s.g.list; }
  }

  // The order only grows at its ends: puts and gets are append-only.
  lemma {:induction false} HistoryGrows(run: seq<State>, i: nat, j: nat)
    requires Run(run) && i <= j < |run|
    ensures run[i].g.puts <= run[j].g.puts && run[i].g.gets <= run[j].g.gets
  {
    hide Init;
    if i < j {
      HistoryGrows(run, i, j - 1);
      assert Next(run[j - 1], run[j - 1 + 1]);
    }
  }

  // ---- what a get decides ----

  // A get that returns nothing holds the lock on an empty queue.
  lemma NothingMeansEmpty(run: seq<State>, i: nat, t: Tid)
    requires Run(run) && i < |run| && t < |run[i].pcs| && run[i].pcs[t].GetNothing?
    ensures run[i].g.lock == Held(t) && run[i].g.list == [] && run[i].g.puts == run[i].g.gets
  {
    RunInv(run, i);
    assert ThreadOk(run[i].g, run[i].pcs[t], t);
  }

  // With the lock, a get takes the first node if there is one; an empty queue
  // ends a non-blocking or timed-out get and puts any other to sleep, the lock
  // given up.
  lemma CheckDecides(run: seq<State>, i: nat, t: Tid, c: Choice)
    requires Run(run) && i < |run| && t < |run[i].pcs| && run[i].pcs[t].GetCheck? && Enabled(run[i], t, c)
    ensures var g := run[i].g;
            var s' := Step(run[i], t, c);
            && g.lock == Held(t)
            && (g.list != [] ==> s'.g == g && s'.pcs[t] == GetUnlink(g.list[0]))
            && (g.list == [] && run[i].pcs[t].last ==> s'.g == g && s'.pcs[t] == GetNothing)
            && (g.list == [] && !run[i].pcs[t].last ==>
                  s'.g == g.(lock := Free, asleep := g.asleep + {t}) && s'.pcs[t] == Asleep(run[i].pcs[t].timed))
  {
    RunInv(run, i);
    var s := run[i];
    assert ThreadOk(s.g, s.pcs[t], t);
    hide Distinct;
    if s.g.list != [] { HeadIsFirst(s.g); } else { EmptyHead(s.g); }
  }

  // Only a non-blocking get, or one whose time is out, does not wait again.
  lemma LastExactly(g: Shared, pc: PC, t: Tid, c: Choice)
    requires Ready(g, pc, t, c)
    ensures var pc' := Act(g, pc, t, c).1;
            pc'.GetLock? || pc'.GetCheck? ==>
              (pc'.last <==> (pc.Idle? && c.TryGet?) || (pc.Asleep? && c.Timeout?) || (pc.GetLock? && pc.last))
  {}

  // ---- one operation by itself ----

  // Steps of thread t alone, waking u if anyone sleeps.
  function Alone(g: Shared, pc: PC, t: Tid, u: Tid, n: nat): (Shared, PC)
    decreases n
  {
    var c := if pc.PutSignal? && g.asleep != {} then Wake(u) else Proceed;
    if n == 0 || !Ready(g, pc, t, c) then (g, pc)
    else
      var (g', pc') := Act(g, pc, t, c);
      Alone(g', pc', t, u, n - 1)
  }

  lemma AloneStep(g: Shared, pc: PC, t: Tid, u: Tid, n: nat)
    requires n > 0
    requires var c := if pc.PutSignal? && g.asleep != {} then Wake(u) else Proceed; Ready(g, pc, t, c)
    ensures var c := if pc.PutSignal? && g.asleep != {} then Wake(u) else Proceed;
            var (g', pc') := Act(g, pc, t, c);
            Alone(g, pc, t, u, n) == Alone(g', pc', t, u, n - 1)
  {}

  lemma AloneDone(g: Shared, pc: PC, t: Tid, u: Tid)
    ensures Alone(g, pc, t, u, 0) == (g, pc)
  {}

  // A put leaves a new node with the value at the end of the queue, one
  // sleeper woken if there are any, and the lock free.
  lemma PutAlone(g: Shared, t: Tid, u: Tid, v: Val)
    requires g.lock == Free && QueueOk(g) && g.tail == Last(g.list) && (g.asleep != {} ==> u in g.asleep)
    ensures var (g1, pc1) := Act(g, Idle, t, Put(v));
            var (g', pc') := Alone(g1, pc1, t, u, 5);
            && pc' == Idle && g'.lock == Free && g'.list == g.list + [g.unused] && g'.tail == Some(g.unused)
            && (forall n :: n in g'.list ==> n in g'.nodes)
            && Queued(g'.nodes, g'.list) == Queued(g.nodes, g.list) + [v]
            && g'.puts == g.puts + [v] && g'.gets == g.gets && g'.returned == g.returned
            && g'.asleep == g.asleep - {u}
  {
    var n := g.unused;
    var g1 := Act(g, Idle, t, Put(v)).0;
    var g2 := g1.(lock := Held(t));
    PutLinks(g, t, v);
    var g3 := Act(g2, PutLink(n), t, Proceed).0;
    var g4 := g3.(tail := Some(n));
    hide Alone, QueueOk, Queued, Last;
    AloneStep(g1, PutLock(n), t, u, 5);
    AloneStep(g2, PutLink(n), t, u, 4);
    AloneStep(g3, PutTail(n), t, u, 3);
    AloneStep(g4, PutSignal, t, u, 2);
    var g5 := g4.(asleep := g4.asleep - {u});
    assert g.asleep == {} ==> g4 == g5;
    AloneStep(g5, PutUnlock, t, u, 1);
    AloneDone(g5.(lock := Free), Idle, t, u);
  }

  lemma PutLinks(g: Shared, t: Tid, v: Val)
    requires QueueOk(g) && g.tail == Last(g.list)
    ensures var n := g.unused;
            var g2 := Act(g, Idle, t, Put(v)).0.(lock := Held(t));
            && Ready(g2, PutLink(n), t, Proceed)
            && var g3 := Act(g2, PutLink(n), t, Proceed).0;
               && g3.list == g.list + [n] && g3.puts == g.puts + [v] && g3.gets == g.gets && g3.returned == g.returned
               && g3.asleep == g.asleep && (forall k :: k in g3.list ==> k in g3.nodes)
               && Queued(g3.nodes, g3.list) == Queued(g.nodes, g.list) + [v]
  {
    hide Chain, Distinct;
    assert g.list != [] ==> g.list[|g.list| - 1] in g.list;
    assert g.unused !in g.list;
  }

  // A get of any kind on a queue that is not empty returns its first value and
  // frees its node.
  lemma GetAlone(g: Shared, t: Tid, u: Tid, timed: bool, last: bool)
    requires g.lock == Free && QueueOk(g) && g.list != [] && g.tail == Last(g.list)
    ensures var (g', pc') := Alone(g, GetLock(timed, last), t, u, 7);
            var n := g.list[0];
            && pc' == Idle && g'.lock == Free && n in g.nodes && n !in g'.nodes
            && g'.list == g.list[1..] && g'.head == g.nodes[n].next && g'.tail == Last(g.list[1..])
            && g'.gets == g.gets + [g.nodes[n].value] && g'.returned == g.returned + multiset{g.nodes[n].value}
            && g'.puts == g.puts && g'.asleep == g.asleep
  {
    hide *;
    HeadIsFirst(g);
    RestOfQueue(g);
    var n := g.list[0];
    var v, rest := g.nodes[n].value, g.list[1..];
    var g2 := g.(lock := Held(t), head := g.nodes[n].next, list := rest, hands := g.hands[n := t], gets := g.gets + [v]);
    GetTakes(g, t, u, timed, last);
    GetReturns(g2, t, u, n, v);
  }

  lemma GetTakes(g: Shared, t: Tid, u: Tid, timed: bool, last: bool)
    requires g.lock == Free && g.list != [] && g.head == Some(g.list[0]) && g.list[0] in g.nodes
    ensures var n := g.list[0];
            var v := g.nodes[n].value;
            Alone(g, GetLock(timed, last), t, u, 7) ==
            Alone(g.(lock := Held(t), head := g.nodes[n].next, list := g.list[1..], hands := g.hands[n := t], gets := g.gets + [v]),
                  GetFixTail(n, v), t, u, 4)
  {
    hide Alone;
    var g1 := g.(lock := Held(t));
    AloneStep(g, GetLock(timed, last), t, u, 7);
    AloneStep(g1, GetCheck(timed, last), t, u, 6);
    AloneStep(g1, GetUnlink(g.list[0]), t, u, 5);
  }

  lemma GetReturns(g: Shared, t: Tid, u: Tid, n: NodeId, v: Val)
    requires n in g.nodes && g.nodes[n].value == v
    requires g.head == (if g.list == [] then None else Some(g.list[0])) && (g.list != [] ==> g.tail == Last(g.list))
    ensures Alone(g, GetFixTail(n, v), t, u, 4) ==
            (g.(tail := Last(g.list), lock := Free, nodes := g.nodes - {n}, hands := g.hands - {n},
                returned := g.returned + multiset{v}), Idle)
  {
    hide Alone;
    AloneStep(g, GetFixTail(n, v), t, u, 4);
    var g3 := g.(tail := Last(g.list));
    AloneStep(g3, GetUnlock(n, v), t, u, 3);
    var g4 := g3.(lock := Free);
    AloneStep(g4, GetRead(n, v), t, u, 2);
    AloneStep(g4, GetFree(n, v, v), t, u, 1);
    AloneDone(g4.(nodes := g.nodes - {n}, hands := g4.hands - {n}, returned := g.returned + multiset{v}), Idle, t, u);
  }

  lemma RestOfQueue(g: Shared)
    requires QueueOk(g) && g.list != []
    ensures var rest := g.list[1..];
            && g.list[0] in g.nodes && g.nodes[g.list[0]].next == (if rest == [] then None else Some(rest[0]))
            && (rest != [] ==> Last(rest) == Last(g.list))
  {
    assert Chain(g.nodes, g.nodes[g.list[0]].next, g.list[1..]);
    hide Distinct, Queued;
  }

  // A non-blocking get on an empty queue returns nothing and changes nothing.
  lemma TryGetAlone(g: Shared, t: Tid, u: Tid)
    requires g.lock == Free && g.head == None
    ensures var (g1, pc1) := Act(g, Idle, t, TryGet);
            g1 == g && Alone(g1, pc1, t, u, 3) == (g, Idle)
  {
    hide Alone;
    var g1 := g.(lock := Held(t));
    AloneStep(g, GetLock(false, true), t, u, 3);
    AloneStep(g1, GetCheck(false, true), t, u, 2);
    AloneStep(g1, GetNothing, t, u, 1);
    AloneDone(g1.(lock := Free), Idle, t, u);
  }

  // A timed get whose time is out while the queue is still empty returns
  // nothing, and no longer sleeps.
  lemma TimedOutAlone(g: Shared, t: Tid, u: Tid)
    requires g.lock == Free && g.head == None
    ensures Ready(g, Asleep(true), t, Timeout)
    ensures var (g1, pc1) := Act(g, Asleep(true), t, Timeout);
            Alone(g1, pc1, t, u, 3) == (g.(asleep := g.asleep - {t}), Idle)
  {
    hide Alone;
    var g0 := g.(asleep := g.asleep - {t});
    var g1 := g0.(lock := Held(t));
    AloneStep(g0, GetLock(true, true), t, u, 3);
    AloneStep(g1, GetCheck(true, true), t, u, 2);
    AloneStep(g1, GetNothing, t, u, 1);
    AloneDone(g1.(lock := Free), Idle, t, u);
  }

  // A sleeper goes back to the lock once it is signalled, and may at any time.
  lemma WokenAlone(g: Shared, t: Tid, timed: bool)
    ensures Ready(g, Asleep(timed), t, Spurious)
    ensures Act(g, Asleep(timed), t, Spurious) == (g.(asleep := g.asleep - {t}), GetLock(timed, false))
    ensures t !in g.asleep ==>
              Ready(g, Asleep(timed), t, Proceed) && Act(g, Asleep(timed), t, Proceed) == (g, GetLock(timed, false))
  {
    assert t !in g.asleep ==> g.asleep - {t} == g.asleep;
  }

  // How the three kinds of get begin.
  lemma GetsBegin(g: Shared, t: Tid)
    ensures Act(g, Idle, t, Get) == (g, GetLock(false, false))
    ensures Act(g, Idle, t, TryGet) == (g, GetLock(false, true))
    ensures Act(g, Idle, t, TimedGet) == (g, GetLock(true, false))
  {}
}
