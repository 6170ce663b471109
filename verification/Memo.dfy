// Top-level values computed once: any number of threads and memos, one shared
// access a step, under sequential consistency.
module Memo {
  import opened Threads

  type Val = nat
  type MemoId = nat

  // value holds the memo's permanent reference once it is stored.
  datatype Memo = Memo(claimed: bool, done: bool, owner: Option<Tid>, value: Option<Val>, next: Option<MemoId>)

  // The access a thread does next.
  datatype PC =
    | Running                                     // evaluating, or between requests
    | Claim(m: MemoId)                            // test and set the claimed flag
    | Own(m: MemoId)                              // write the owner mark
    | StoreValue(m: MemoId, v: Val)               // dup the value into the memo
    | LoadHead(m: MemoId, v: Val)                 // load the cleanup list's head
    | LinkNext(m: MemoId, v: Val, seen: Option<MemoId>)
    | Swap(m: MemoId, v: Val, seen: Option<MemoId>) // compare and swap the head
    | Publish(m: MemoId, v: Val)                  // set done
    | LoadDone(m: MemoId)                         // wait: load done
    | CheckOwner(m: MemoId)                       // wait: is the mark our own?
    | TakeValue(m: MemoId)                        // dup the stored value

  // stack: the memos the thread is evaluating, innermost first.
  datatype Thread = Thread(stack: seq<MemoId>, pc: PC)

  // refs counts the references to each value and given those handed to
  // callers. winners, list and log record history: who claimed each memo, the
  // memos on the cleanup list newest first, and what each request returned.
  datatype Shared = Shared(memos: seq<Memo>, head: Option<MemoId>, refs: multiset<Val>, given: multiset<Val>,
                           cycle: bool, winners: map<MemoId, Tid>, list: seq<MemoId>, log: seq<(MemoId, Val)>)

  datatype State = State(g: Shared, threads: seq<Thread>)

  // What the running program does next, and whether a weak swap fails.
  datatype Choice = Request(m: MemoId) | Finish(v: Val) | Proceed | Fail

  predicate Ready(g: Shared, th: Thread, c: Choice) {
    && !g.cycle
    && match th.pc
       case Running =>
         (match c
          case Request(m) => m < |g.memos|
          case Finish(_) => th.stack != []
          case _ => false)
       case TakeValue(m) => m < |g.memos| && g.memos[m].value.Some?
       case Publish(m, _) => m < |g.memos| && th.stack != []
       case pc => pc.m < |g.memos|
  }

  function Put(g: Shared, m: MemoId, memo: Memo): Shared
    requires m < |g.memos|
  {
    g.(memos := g.memos[m := memo])
  }

  function Act(g: Shared, th: Thread, t: Tid, c: Choice): (Shared, Thread)
    requires Ready(g, th, c)
  {
    match th.pc
    case Running =>
      if c.Request? then (g, th.(pc := Claim(c.m)))
      else (g.(refs := g.refs + multiset{c.v}), th.(pc := StoreValue(th.stack[0], c.v)))
    case Claim(m) =>
      if g.memos[m].claimed then (g, th.(pc := LoadDone(m)))
      else (Put(g, m, g.memos[m].(claimed := true)).(winners := g.winners[m := t]), th.(pc := Own(m)))
    case Own(m) => (Put(g, m, g.memos[m].(owner := Some(t))), Thread([m] + th.stack, Running))
    case StoreValue(m, v) =>
      (Put(g, m, g.memos[m].(value := Some(v))).(refs := g.refs + multiset{v}), th.(pc := LoadHead(m, v)))
    case LoadHead(m, v) => (g, th.(pc := LinkNext(m, v, g.head)))
    case LinkNext(m, v, seen) => (Put(g, m, g.memos[m].(next := seen)), th.(pc := Swap(m, v, seen)))
    case Swap(m, v, seen) =>
      if g.head == seen && !c.Fail? then (g.(head := Some(m), list := [m] + g.list), th.(pc := Publish(m, v)))
      else (g, th.(pc := LinkNext(m, v, g.head)))
    case Publish(m, v) =>
      (Put(g, m, g.memos[m].(done := true)).(given := g.given + multiset{v}, log := g.log + [(m, v)]),
       Thread(th.stack[1..], Running))
    case LoadDone(m) => (g, th.(pc := if g.memos[m].done then TakeValue(m) else CheckOwner(m)))
    case CheckOwner(m) =>
      if g.memos[m].owner == Some(t) then (g.(cycle := true), th) else (g, th.(pc := LoadDone(m)))
    case TakeValue(m) =>
      var v := g.memos[m].value.value;
      (g.(refs := g.refs + multiset{v}, given := g.given + multiset{v}, log := g.log + [(m, v)]), th.(pc := Running))
  }

  predicate Enabled(s: State, t: Tid, c: Choice) { t < |s.threads| && Ready(s.g, s.threads[t], c) }

  function Step(s: State, t: Tid, c: Choice): State
    requires Enabled(s, t, c)
  {
    var (g, th) := Act(s.g, s.threads[t], t, c);
    State(g, s.threads[t := th])
  }

  ghost predicate Next(s: State, s': State) {
    exists t: Tid, c :: Enabled(s, t, c) && s' == Step(s, t, c)
  }

  ghost predicate Init(s: State) {
    && (forall m :: 0 <= m < |s.g.memos| ==> s.g.memos[m] == Memo(false, false, None, None, None))
    && (forall t :: 0 <= t < |s.threads| ==> s.threads[t] == Thread([], Running))
    && s.g == Shared(s.g.memos, None, multiset{}, multiset{}, false, map[], [], [])
  }

  ghost predicate Run(run: seq<State>) {
    run != [] && Init(run[0]) && forall i :: 0 <= i < |run| - 1 ==> Next(run[i], run[i + 1])
  }

  // ---- the cleanup list ----

  ghost predicate Chain(memos: seq<Memo>, head: Option<MemoId>, list: seq<MemoId>)
    decreases |list|
  {
    if list == [] then head == None
    else head == Some(list[0]) && list[0] < |memos| && Chain(memos, memos[list[0]].next, list[1..])
  }

  lemma {:induction false} ChainSame(memos: seq<Memo>, head: Option<MemoId>, list: seq<MemoId>, m: MemoId, memo: Memo)
    requires Chain(memos, head, list) && m < |memos| && (m in list ==> memo.next == memos[m].next)
    ensures Chain(memos[m := memo], head, list)
    decreases |list|
  {
    if list != [] { ChainSame(memos, memos[list[0]].next, list[1..], m, memo); }
  }

  ghost predicate Distinct(list: seq<MemoId>) {
    forall i, j :: 0 <= i < j < |list| ==> list[i] != list[j]
  }

  // ---- the invariant ----

  // A memo the thread t is evaluating.
  ghost predicate Evaluated(g: Shared, m: MemoId, t: Tid) {
    && m < |g.memos| && g.memos[m].claimed && !g.memos[m].done
    && g.memos[m].owner == Some(t) && m in g.winners && g.winners[m] == t
  }

  predicate Storing(pc: PC) {
    pc.StoreValue? || pc.LoadHead? || pc.LinkNext? || pc.Swap? || pc.Publish?
  }

  ghost predicate Stored(g: Shared, m: MemoId, value: Option<Val>, listed: bool) {
    m < |g.memos| && g.memos[m].value == value && (m in g.list <==> listed)
  }

  ghost predicate StackOk(g: Shared, th: Thread, t: Tid) {
    && Distinct(th.stack)
    && (forall m :: m in th.stack ==> Evaluated(g, m, t))
    && (Storing(th.pc) ==> th.stack != [] && th.stack[0] == th.pc.m)
    && (forall i :: (if Storing(th.pc) then 1 else 0) <= i < |th.stack| ==>
          Stored(g, th.stack[i], None, false))
  }

  ghost predicate PcOk(g: Shared, th: Thread, t: Tid) {
    match th.pc
    case Running => true
    case Claim(m) => m < |g.memos|
    case Own(m) =>
      && m < |g.memos| && g.memos[m].claimed && !g.memos[m].done && g.memos[m].owner == None
      && m in g.winners && g.winners[m] == t && Stored(g, m, None, false)
    case StoreValue(m, _) => Stored(g, m, None, false)
    case LoadHead(m, v) => Stored(g, m, Some(v), false)
    case LinkNext(m, v, _) => Stored(g, m, Some(v), false)
    case Swap(m, v, seen) => Stored(g, m, Some(v), false) && g.memos[m].next == seen
    case Publish(m, v) => Stored(g, m, Some(v), true)
    case LoadDone(m) => m < |g.memos| && g.memos[m].claimed
    case CheckOwner(m) => m < |g.memos| && g.memos[m].claimed && (g.memos[m].owner == Some(t) ==> m in th.stack)
    case TakeValue(m) => m < |g.memos| && g.memos[m].done
  }

  predicate Has(th: Thread, m: MemoId) { m in th.stack || (th.pc.Own? && th.pc.m == m) }

  // Whoever claimed a memo is evaluating it until it is done.
  ghost predicate WorkOk(g: Shared, th: Thread, t: Tid) {
    forall m :: 0 <= m < |g.memos| && m in g.winners && g.winners[m] == t && !g.memos[m].done ==> Has(th, m)
  }

  ghost predicate ThreadOk(g: Shared, th: Thread, t: Tid) { StackOk(g, th, t) && PcOk(g, th, t) && WorkOk(g, th, t) }

  ghost predicate MemoOk(g: Shared, m: MemoId)
    requires m < |g.memos|
  {
    var memo := g.memos[m];
    && (memo.claimed <==> m in g.winners)
    && (memo.value.Some? ==> memo.claimed)
    && (memo.owner.Some? ==> m in g.winners && memo.owner == Some(g.winners[m]))
    && (memo.done ==> memo.value.Some? && m in g.list)
  }

  ghost predicate ListOk(g: Shared) {
    && Chain(g.memos, g.head, g.list) && Distinct(g.list)
    && (forall m :: m in g.list ==> m < |g.memos| && g.memos[m].value.Some?)
  }

  ghost predicate LogOk(g: Shared) {
    forall i :: 0 <= i < |g.log| ==> g.log[i].0 < |g.memos| && g.memos[g.log[i].0].done && g.memos[g.log[i].0].value == Some(g.log[i].1)
  }

  ghost predicate SharedOk(g: Shared) {
    && (forall m :: 0 <= m < |g.memos| ==> MemoOk(g, m))
    && (forall m :: m in g.winners ==> m < |g.memos|)
    && ListOk(g) && LogOk(g)
  }

  ghost predicate Protocol(s: State) {
    && SharedOk(s.g) && (forall m :: m in s.g.winners ==> s.g.winners[m] < |s.threads|)
    && forall t :: 0 <= t < |s.threads| ==> ThreadOk(s.g, s.threads[t], t)
  }

  // ---- every step keeps it ----

  // What a step of thread t may change: memos it has claimed.
  ghost predicate Changes(g: Shared, t: Tid, g': Shared) {
    && |g'.memos| == |g.memos|
    && (forall m :: m in g.winners ==> m in g'.winners && g'.winners[m] == g.winners[m])
    && (forall m :: m in g'.winners && m !in g.winners ==> g'.winners[m] == t)
    && (forall m :: 0 <= m < |g.memos| && g'.memos[m] != g.memos[m] ==> ChangesMemo(g, t, g', m))
    && (forall m :: m in g'.list && m !in g.list ==> m in g.winners && g.winners[m] == t)
    && (forall m :: m in g.list ==> m in g'.list)
  }

  ghost predicate ChangesMemo(g: Shared, t: Tid, g': Shared, m: MemoId)
    requires m < |g.memos| == |g'.memos|
  {
    && m in g'.winners && g'.winners[m] == t
    && (g.memos[m].claimed ==> g'.memos[m].claimed) && (g.memos[m].done ==> g'.memos[m].done)
    && (g'.memos[m].owner != g.memos[m].owner ==> g'.memos[m].owner == Some(t))
  }

  lemma ActChanges(g: Shared, th: Thread, t: Tid, c: Choice)
    requires Ready(g, th, c) && SharedOk(g) && ThreadOk(g, th, t)
    ensures Changes(g, t, Act(g, th, t, c).0)
  {
    hide Chain, Distinct;
    if Storing(th.pc) { StoringIsTop(g, th, t); }
    ActOneMemo(g, th, t, c);
    assert th.pc.Claim? ==> MemoOk(g, th.pc.m);
  }

  lemma StoringIsTop(g: Shared, th: Thread, t: Tid)
    requires StackOk(g, th, t) && Storing(th.pc)
    ensures th.pc.m in th.stack && Evaluated(g, th.pc.m, t)
  {}

  lemma OtherThread(g: Shared, t: Tid, g': Shared, th: Thread, u: Tid)
    requires t != u && ThreadOk(g, th, u) && Changes(g, t, g')
    ensures ThreadOk(g', th, u)
  {
    forall m: MemoId | Has(th, m)
      ensures m < |g.memos| && g'.memos[m] == g.memos[m] && (m in g'.list <==> m in g.list)
    {
      assert m in g.winners && g.winners[m] == u;
    }
    OtherStack(g, g', th, u);
    OtherPc(g, t, g', th, u);
    OtherWork(g, t, g', th, u);
  }

  lemma OtherWork(g: Shared, t: Tid, g': Shared, th: Thread, u: Tid)
    requires t != u && WorkOk(g, th, u) && Changes(g, t, g')
    ensures WorkOk(g', th, u)
  {}

  lemma OtherStack(g: Shared, g': Shared, th: Thread, u: Tid)
    requires StackOk(g, th, u) && |g'.memos| == |g.memos|
    requires forall m :: m in g.winners ==> m in g'.winners && g'.winners[m] == g.winners[m]
    requires forall m :: m in th.stack ==> m < |g.memos| && g'.memos[m] == g.memos[m] && (m in g'.list <==> m in g.list)
    ensures StackOk(g', th, u)
  {
    hide Distinct;
  }

  lemma OtherPc(g: Shared, t: Tid, g': Shared, th: Thread, u: Tid)
    requires t != u && StackOk(g, th, u) && PcOk(g, th, u) && Changes(g, t, g')
    requires forall m: MemoId :: Has(th, m) ==>
      m < |g.memos| && g'.memos[m] == g.memos[m] && (m in g'.list <==> m in g.list)
    ensures PcOk(g', th, u)
  {
    hide Distinct;
    assert Storing(th.pc) ==> th.pc.m in th.stack;
  }

  // A step changes the memo at the thread's pc at most.
  lemma ActOneMemo(g: Shared, th: Thread, t: Tid, c: Choice)
    requires Ready(g, th, c)
    ensures var (g', th') := Act(g, th, t, c);
            && |g'.memos| == |g.memos|
            && (forall m :: 0 <= m < |g.memos| && g'.memos[m] != g.memos[m] ==> !th.pc.Running? && m == th.pc.m)
            && (g'.winners == g.winners || (th.pc.Claim? && !g.memos[th.pc.m].claimed && g'.winners == g.winners[th.pc.m := t]))
            && (g'.list == g.list || (th.pc.Swap? && g'.list == [th.pc.m] + g.list))
  {}

  lemma OwnStack(g: Shared, th: Thread, t: Tid, c: Choice)
    requires Ready(g, th, c) && SharedOk(g) && ThreadOk(g, th, t) && !th.pc.Publish? && !th.pc.Own?
    ensures var (g', th') := Act(g, th, t, c); StackOk(g', th', t)
  {
    hide Chain, ListOk, LogOk;
    ActOneMemo(g, th, t, c);
  }

  lemma OwnedStack(g: Shared, th: Thread, t: Tid, c: Choice)
    requires Ready(g, th, c) && ThreadOk(g, th, t) && th.pc.Own?
    ensures var (g', th') := Act(g, th, t, c); StackOk(g', th', t)
  {
    hide WorkOk;
    assert th.pc.m !in th.stack;
  }

  lemma PublishStack(g: Shared, th: Thread, t: Tid, c: Choice)
    requires Ready(g, th, c) && ThreadOk(g, th, t) && th.pc.Publish?
    ensures var (g', th') := Act(g, th, t, c); StackOk(g', th', t)
  {
    hide WorkOk;
    var (g', th') := Act(g, th, t, c);
    forall i | 0 <= i < |th'.stack|
      ensures th'.stack[i] == th.stack[i + 1] && g'.memos[th'.stack[i]] == g.memos[th.stack[i + 1]]
      ensures Evaluated(g', th'.stack[i], t) && Stored(g', th'.stack[i], None, false)
    {
      assert th.stack[i + 1] in th.stack;
    }
  }

  lemma OwnPc(g: Shared, th: Thread, t: Tid, c: Choice)
    requires Ready(g, th, c) && SharedOk(g) && ThreadOk(g, th, t)
    ensures var (g', th') := Act(g, th, t, c); PcOk(g', th', t)
  {
    hide Chain, LogOk, Distinct;
    if Storing(th.pc) { StoringIsTop(g, th, t); }
    assert !th.pc.Running? && th.pc.m < |g.memos| ==> MemoOk(g, th.pc.m);
  }

  lemma OwnWork(g: Shared, th: Thread, t: Tid, c: Choice)
    requires Ready(g, th, c) && SharedOk(g) && ThreadOk(g, th, t)
    ensures var (g', th') := Act(g, th, t, c); WorkOk(g', th', t)
  {
    hide Chain, LogOk, Distinct;
    if Storing(th.pc) { StoringIsTop(g, th, t); }
    ActOneMemo(g, th, t, c);
    assert th.stack != [] ==> th.stack == [th.stack[0]] + th.stack[1..];
  }

  lemma ActMemos(g: Shared, th: Thread, t: Tid, c: Choice, m: MemoId)
    requires Ready(g, th, c) && SharedOk(g) && ThreadOk(g, th, t) && m < |g.memos|
    ensures var (g', th') := Act(g, th, t, c); |g'.memos| == |g.memos| && MemoOk(g', m)
  {
    hide Chain, Distinct, ListOk, LogOk;
    if Storing(th.pc) { StoringIsTop(g, th, t); }
    ActOneMemo(g, th, t, c);
    assert MemoOk(g, m);
  }

  lemma ActList(g: Shared, th: Thread, t: Tid, c: Choice)
    requires Ready(g, th, c) && SharedOk(g) && ThreadOk(g, th, t)
    ensures var (g', th') := Act(g, th, t, c); ListOk(g')
  {
    hide Chain, Distinct, LogOk;
    ActOneMemo(g, th, t, c);
    var (g', th') := Act(g, th, t, c);
    if g'.list == g.list {
      if g'.memos != g.memos {
        ChainSame(g.memos, g.head, g.list, th.pc.m, g'.memos[th.pc.m]);
      }
    } else {
      ChainPush(g.memos, g.head, g.list, th.pc.m);
    }
  }

  lemma ChainPush(memos: seq<Memo>, head: Option<MemoId>, list: seq<MemoId>, m: MemoId)
    requires Chain(memos, head, list) && Distinct(list) && m !in list && m < |memos| && memos[m].next == head
    ensures Chain(memos, Some(m), [m] + list) && Distinct([m] + list)
  {
    assert ([m] + list)[1..] == list;
  }

  lemma ActLog(g: Shared, th: Thread, t: Tid, c: Choice)
    requires Ready(g, th, c) && SharedOk(g) && ThreadOk(g, th, t)
    ensures var (g', th') := Act(g, th, t, c); LogOk(g')
  {
    hide Chain, Distinct;
  }

  lemma StepProtocol(s: State, t: Tid, c: Choice)
    requires Enabled(s, t, c) && Protocol(s)
    ensures Protocol(Step(s, t, c))
  {
    hide Act, Ready, StackOk, PcOk, WorkOk, MemoOk, ListOk, LogOk, ChangesMemo;
    var th := s.threads[t];
    assert ThreadOk(s.g, th, t);
    ActChanges(s.g, th, t, c);
    OwnStackOk(s.g, th, t, c);
    OwnPc(s.g, th, t, c);
    OwnWork(s.g, th, t, c);
    SharedStep(s.g, th, t, c);
    var s' := Step(s, t, c);
    forall u | 0 <= u < |s'.threads| ensures ThreadOk(s'.g, s'.threads[u], u) {
      if u != t { OtherThread(s.g, t, s'.g, s.threads[u], u); }
    }
  }

  lemma OwnStackOk(g: Shared, th: Thread, t: Tid, c: Choice)
    requires Ready(g, th, c) && SharedOk(g) && ThreadOk(g, th, t)
    ensures var (g', th') := Act(g, th, t, c); StackOk(g', th', t)
  {
    hide *;
    if th.pc.Publish? {
      PublishStack(g, th, t, c);
    } else if th.pc.Own? {
      OwnedStack(g, th, t, c);
    } else {
      OwnStack(g, th, t, c);
    }
  }

  lemma SharedStep(g: Shared, th: Thread, t: Tid, c: Choice)
    requires Ready(g, th, c) && SharedOk(g) && ThreadOk(g, th, t)
    ensures var (g', th') := Act(g, th, t, c); SharedOk(g')
  {
    ActOneMemo(g, th, t, c);
    hide Act, Ready, ThreadOk, MemoOk, ListOk, LogOk;
    var (g', th') := Act(g, th, t, c);
    forall m | 0 <= m < |g'.memos| ensures MemoOk(g', m) { ActMemos(g, th, t, c, m); }
    ActList(g, th, t, c);
    ActLog(g, th, t, c);
  }

  // ---- counting references ----

  // The references to v a thread holds, the memo's own among them until the
  // memo is on the list.
  function Values(pc: PC, v: Val): nat {
    match pc
    case StoreValue(_, r) => One(r, v)
    case LoadHead(_, r) => 2 * One(r, v)
    case LinkNext(_, r, _) => 2 * One(r, v)
    case Swap(_, r, _) => 2 * One(r, v)
    case Publish(_, r) => One(r, v)
    case _ => 0
  }

  function ValuesOf(v: Val): Thread -> nat { (th: Thread) => Values(th.pc, v) }

  // The permanent references of the memos on the list.
  function Permanent(memos: seq<Memo>, list: seq<MemoId>, v: Val): nat {
    if list == [] then 0
    else (if list[0] < |memos| && memos[list[0]].value == Some(v) then 1 else 0) + Permanent(memos, list[1..], v)
  }

  ghost predicate ValueCount(s: State, v: Val) {
    s.g.refs[v] == s.g.given[v] + Permanent(s.g.memos, s.g.list, v) + Sum(ValuesOf(v), s.threads)
  }

  lemma {:induction false} PermanentSame(memos: seq<Memo>, list: seq<MemoId>, v: Val, m: MemoId, memo: Memo)
    requires m < |memos| && (m in list ==> memo.value == memos[m].value)
    ensures Permanent(memos[m := memo], list, v) == Permanent(memos, list, v)
  {
    if list != [] { PermanentSame(memos, list[1..], v, m, memo); }
  }

  // The swap that puts a memo on the list.
  predicate Links(g: Shared, th: Thread, c: Choice) { th.pc.Swap? && g.head == th.pc.seen && !c.Fail? }

  lemma ActPermanent(g: Shared, th: Thread, t: Tid, c: Choice, v: Val)
    requires Ready(g, th, c) && ThreadOk(g, th, t)
    ensures var (g', th') := Act(g, th, t, c);
            Permanent(g'.memos, g'.list, v) == Permanent(g.memos, g.list, v)
              + (if Links(g, th, c) then One(th.pc.v, v) else 0)
  {
    hide StackOk, WorkOk;
    ActOneMemo(g, th, t, c);
    var (g', th') := Act(g, th, t, c);
    if Links(g, th, c) {
      assert g'.list[1..] == g.list;
    } else if g'.memos != g.memos {
      var m := th.pc.m;
      assert g'.memos == g.memos[m := g'.memos[m]];
      PermanentSame(g.memos, g.list, v, m, g'.memos[m]);
    }
  }

  lemma ActValues(g: Shared, th: Thread, t: Tid, c: Choice, v: Val)
    requires Ready(g, th, c) && ThreadOk(g, th, t)
    ensures var (g', th') := Act(g, th, t, c);
            g'.refs[v] + g.given[v] + Values(th.pc, v) + Permanent(g.memos, g.list, v) ==
            g.refs[v] + g'.given[v] + Values(th'.pc, v) + Permanent(g'.memos, g'.list, v)
  {
    ActPermanent(g, th, t, c, v);
    ActCounts(g, th, t, c, v);
    hide *;
  }

  lemma ActCounts(g: Shared, th: Thread, t: Tid, c: Choice, v: Val)
    requires Ready(g, th, c)
    ensures var (g', th') := Act(g, th, t, c);
            g'.refs[v] + g.given[v] + Values(th.pc, v) ==
            g.refs[v] + g'.given[v] + Values(th'.pc, v) + (if Links(g, th, c) then One(th.pc.v, v) else 0)
  {}

  ghost predicate Inv(s: State) { Protocol(s) && forall v :: ValueCount(s, v) }

  lemma InitInv(s: State)
    requires Init(s)
    ensures Inv(s)
  {
    forall v ensures ValueCount(s, v) { SumZero(ValuesOf(v), s.threads); }
  }

  lemma StepInv(s: State, t: Tid, c: Choice)
    requires Enabled(s, t, c) && Inv(s)
    ensures Inv(Step(s, t, c))
  {
    hide Act, Ready, Values, Sum, Permanent, SharedOk, ThreadOk;
    StepProtocol(s, t, c);
    var s' := Step(s, t, c);
    forall v ensures ValueCount(s', v) {
      assert ValueCount(s, v);
      SumAt(ValuesOf(v), s.threads, t, s'.threads[t]);
      ActValues(s.g, s.threads[t], t, c, v);
    }
  }

  lemma {:induction false} RunInv(run: seq<State>, i: nat)
    requires Run(run) && i < |run|
    ensures Inv(run[i])
  {
    hide Inv, Init, Step, Enabled;
    if i == 0 {
      InitInv(run[0]);
    } else {
      RunInv(run, i - 1);
      assert Next(run[i - 1], run[i - 1 + 1]);
      var t: Tid, c :| Enabled(run[i - 1], t, c) && run[i] == Step(run[i - 1], t, c);
      StepInv(run[i - 1], t, c);
    }
  }

  // ---- over whole runs ----

  lemma InvParts(s: State, t: Tid)
    requires Inv(s) && t < |s.threads|
    ensures SharedOk(s.g) && ThreadOk(s.g, s.threads[t], t)
  {}

  // A memo is claimed once; its flag, its stored value and its place on the
  // list stay, and results are only added to the log.
  ghost predicate Grows(g: Shared, g': Shared) {
    && |g'.memos| == |g.memos|
    && (forall m :: m in g.winners ==> m in g'.winners && g'.winners[m] == g.winners[m])
    && (forall m :: 0 <= m < |g.memos| && g.memos[m].done ==> g'.memos[m].done && g'.memos[m].value == g.memos[m].value)
    && g.log <= g'.log
  }

  lemma ActGrows(g: Shared, th: Thread, t: Tid, c: Choice)
    requires Ready(g, th, c) && SharedOk(g) && ThreadOk(g, th, t)
    ensures Grows(g, Act(g, th, t, c).0)
  {
    hide Chain, ListOk, LogOk, WorkOk, Distinct;
    ActOneMemo(g, th, t, c);
    if Storing(th.pc) { StoringIsTop(g, th, t); }
    assert !th.pc.Running? && th.pc.m < |g.memos| ==> MemoOk(g, th.pc.m);
  }

  lemma {:induction false} RunGrows(run: seq<State>, i: nat, j: nat)
    requires Run(run) && i <= j < |run|
    ensures Grows(run[i].g, run[j].g)
  {
    hide Inv, Init, Act, Ready;
    if i < j {
      RunGrows(run, i, j - 1);
      RunInv(run, j - 1);
      assert Next(run[j - 1], run[j - 1 + 1]);
      var t: Tid, c :| Enabled(run[j - 1], t, c) && run[j] == Step(run[j - 1], t, c);
      InvParts(run[j - 1], t);
      ActGrows(run[j - 1].g, run[j - 1].threads[t], t, c);
    }
  }

  // Exactly one thread ever claims a memo.
  lemma ClaimedOnce(run: seq<State>, i: nat, j: nat, m: MemoId)
    requires Run(run) && i <= j < |run| && m < |run[i].g.memos| && run[i].g.memos[m].claimed
    ensures m in run[i].g.winners && m in run[j].g.winners && run[j].g.winners[m] == run[i].g.winners[m]
    ensures m < |run[j].g.memos| && run[j].g.memos[m].claimed
  {
    RunGrows(run, i, j);
    RunInv(run, i);
    RunInv(run, j);
    assert MemoOk(run[i].g, m) && MemoOk(run[j].g, m);
  }

  // Every request of a memo that returns gives the stored value, for good.
  lemma OneResult(run: seq<State>, i: nat, j: nat, a: nat, b: nat)
    requires Run(run) && i <= j < |run| && a < |run[i].g.log| && b < |run[j].g.log|
    requires run[i].g.log[a].0 == run[j].g.log[b].0
    ensures run[i].g.log[a].1 == run[j].g.log[b].1
    ensures var m := run[i].g.log[a].0; m < |run[j].g.memos| && run[j].g.memos[m].value == Some(run[i].g.log[a].1)
  {
    RunGrows(run, i, j);
    RunInv(run, i);
    RunInv(run, j);
    assert LogOk(run[i].g) && LogOk(run[j].g);
  }

  // A wait checks the owner mark and stops the program exactly when the memo is
  // one the waiting thread is itself evaluating.
  lemma SelfWaitDetected(run: seq<State>, i: nat, t: Tid)
    requires Run(run) && i < |run| && t < |run[i].threads|
    ensures var (g, th) := (run[i].g, run[i].threads[t]);
            && (th.pc.LoadDone? && th.pc.m in th.stack && Enabled(run[i], t, Proceed) ==>
                  Act(g, th, t, Proceed) == (g, th.(pc := CheckOwner(th.pc.m))))
            && (th.pc.CheckOwner? && Enabled(run[i], t, Proceed) ==>
                  (Act(g, th, t, Proceed).0.cycle <==> th.pc.m in th.stack))
  {
    RunInv(run, i);
    InvParts(run[i], t);
  }

  // A memo claimed and not done is being evaluated by the thread that claimed
  // it, and no other.
  lemma OneEvaluator(run: seq<State>, i: nat, t: Tid, m: MemoId)
    requires Run(run) && i < |run| && t < |run[i].threads| && m < |run[i].g.memos|
    ensures var g := run[i].g;
            Has(run[i].threads[t], m) <==> g.memos[m].claimed && !g.memos[m].done && m in g.winners && g.winners[m] == t
  {
    RunInv(run, i);
    InvParts(run[i], t);
    assert MemoOk(run[i].g, m);
  }

  predicate Waits(th: Thread) { th.pc.LoadDone? || th.pc.CheckOwner? }

  // The memo a waiting thread waits for.
  function Wanted(th: Thread): MemoId { if Waits(th) then th.pc.m else 0 }

  // Threads that each wait for a memo another of them is evaluating.
  ghost predicate Knot(s: State, ts: set<Tid>) {
    ts != {} && forall t :: t in ts ==> Tied(s, ts, t)
  }

  ghost predicate Tied(s: State, ts: set<Tid>, t: Tid) {
    && t < |s.threads| && Waits(s.threads[t])
    && exists u :: u in ts && Holds(s, t, u)
  }

  // Thread u is evaluating what t wants.
  predicate Holds(s: State, t: Tid, u: Tid) {
    t != u && t < |s.threads| && u < |s.threads| && Wanted(s.threads[t]) in s.threads[u].stack
  }

  // A wait that has only gone round.
  predicate SameWait(th: Thread, th': Thread) {
    Waits(th) && Waits(th') && Wanted(th') == Wanted(th) && th'.stack == th.stack
  }

  ghost predicate SameWaits(s: State, s': State, ts: set<Tid>) {
    forall t :: t in ts ==> t < |s.threads| && t < |s'.threads| && SameWait(s.threads[t], s'.threads[t])
  }

  lemma WaitGoesOn(g: Shared, th: Thread, t: Tid, c: Choice, u: Tid, other: Thread)
    requires Ready(g, th, c) && Waits(th) && t != u && StackOk(g, other, u) && Wanted(th) in other.stack
    ensures SameWait(th, Act(g, th, t, c).1)
  {
    assert Evaluated(g, Wanted(th), u);
  }

  lemma TiedGoesOn(s: State, ts: set<Tid>, t: Tid, c: Choice)
    requires Inv(s) && Tied(s, ts, t) && Enabled(s, t, c)
    ensures SameWait(s.threads[t], Act(s.g, s.threads[t], t, c).1)
  {
    hide Inv, Act, Ready, StackOk, SharedOk, PcOk, WorkOk, Wanted;
    var u :| u in ts && Holds(s, t, u);
    InvParts(s, u);
    WaitGoesOn(s.g, s.threads[t], t, c, u, s.threads[u]);
  }

  lemma KnotStep(s: State, ts: set<Tid>, t: Tid, c: Choice)
    requires Inv(s) && Knot(s, ts) && Enabled(s, t, c)
    ensures SameWaits(s, Step(s, t, c), ts)
  {
    hide Inv, Act, Ready, Wanted;
    var s' := Step(s, t, c);
    forall v | v in ts ensures v < |s.threads| && SameWait(s.threads[v], s'.threads[v]) {
      assert Tied(s, ts, v);
      if v == t { TiedGoesOn(s, ts, t, c); }
    }
  }

  lemma KnotStays(s: State, s': State, ts: set<Tid>)
    requires Knot(s, ts) && SameWaits(s, s', ts)
    ensures Knot(s', ts)
  {
    hide Wanted;
    forall t | t in ts ensures Tied(s', ts, t) {
      assert Tied(s, ts, t);
      var u :| u in ts && Holds(s, t, u);
      assert Holds(s', t, u);
    }
  }

  // A dependency cycle through several threads is not found: all of them spin
  // for good, and none of the memos they wait for is ever done.
  lemma {:induction false} KnotSpins(run: seq<State>, i: nat, j: nat, ts: set<Tid>)
    requires Run(run) && i <= j < |run| && Knot(run[i], ts)
    ensures Knot(run[j], ts) && SameWaits(run[i], run[j], ts)
    ensures forall t :: t in ts ==> t < |run[j].threads| && Undone(run[j].g, Wanted(run[j].threads[t]))
  {
    hide *;
    if i < j {
      KnotSpins(run, i, j - 1, ts);
      var t, c := StepAt(run, j - 1);
      KnotStep(run[j - 1], ts, t, c);
      KnotStays(run[j - 1], run[j], ts);
      SameWaitsTrans(run[i], run[j - 1], run[j], ts);
    } else {
      SameWaitsRefl(run[i], ts);
    }
    RunInv(run, j);
    forall t | t in ts ensures Undone(run[j].g, Wanted(run[j].threads[t])) {
      var u := HolderOf(run[j], ts, t);
      HeldIsUndone(run[j], t, u);
    }
  }

  lemma StepAt(run: seq<State>, i: nat) returns (t: Tid, c: Choice)
    requires Run(run) && i < |run| - 1
    ensures Inv(run[i]) && Enabled(run[i], t, c) && run[i + 1] == Step(run[i], t, c)
  {
    hide Inv, Step, Enabled, Init;
    RunInv(run, i);
    assert Next(run[i], run[i + 1]);
    t, c :| Enabled(run[i], t, c) && run[i + 1] == Step(run[i], t, c);
  }

  lemma SameWaitsTrans(s: State, s': State, s'': State, ts: set<Tid>)
    requires SameWaits(s, s', ts) && SameWaits(s', s'', ts)
    ensures SameWaits(s, s'', ts) && forall t :: t in ts ==> t < |s''.threads|
  {
    hide Wanted;
  }

  lemma SameWaitsRefl(s: State, ts: set<Tid>)
    requires Knot(s, ts)
    ensures SameWaits(s, s, ts) && forall t :: t in ts ==> t < |s.threads|
  {
    assert forall t :: t in ts ==> Tied(s, ts, t);
  }

  lemma HolderOf(s: State, ts: set<Tid>, t: Tid) returns (u: Tid)
    requires Knot(s, ts) && t in ts
    ensures Holds(s, t, u)
  {
    hide Holds;
    assert Tied(s, ts, t);
    u :| u in ts && Holds(s, t, u);
  }

  predicate Undone(g: Shared, m: MemoId) { m < |g.memos| && !g.memos[m].done }

  lemma HeldIsUndone(s: State, t: Tid, u: Tid)
    requires Inv(s) && Holds(s, t, u)
    ensures Undone(s.g, Wanted(s.threads[t]))
  {
    InvParts(s, u);
    assert Evaluated(s.g, Wanted(s.threads[t]), u);
  }

  // And nothing else can hang: where every thread is idle or waits for a memo
  // that is not done and not its own, the waiting threads are a knot.
  lemma OnlyKnotsHang(run: seq<State>, i: nat, ts: set<Tid>)
    requires Run(run) && i < |run| && ts != {}
    requires forall t :: t in ts <==> 0 <= t < |run[i].threads| && Waits(run[i].threads[t])
    requires forall t :: 0 <= t < |run[i].threads| && t !in ts ==> run[i].threads[t] == Thread([], Running)
    requires forall t :: t in ts ==>
               Undone(run[i].g, Wanted(run[i].threads[t])) && Wanted(run[i].threads[t]) !in run[i].threads[t].stack
    ensures Knot(run[i], ts)
  {
    RunInv(run, i);
    var s := run[i];
    forall t | t in ts ensures Tied(s, ts, t) {
      hide Inv;
      var u := WaitedForBy(s, t);
      OneEvaluator(run, i, u, Wanted(s.threads[t]));
      assert Holds(s, t, u);
    }
  }

  // Whoever claimed what a thread waits for.
  lemma WaitedForBy(s: State, t: Tid) returns (u: Tid)
    requires Inv(s) && t < |s.threads| && Waits(s.threads[t])
    ensures var m := Wanted(s.threads[t]);
            m < |s.g.memos| && s.g.memos[m].claimed && m in s.g.winners && u == s.g.winners[m] && u < |s.threads|
  {
    InvParts(s, t);
    var m := Wanted(s.threads[t]);
    assert MemoOk(s.g, m);
    u := s.g.winners[m];
  }

  // Such a run exists.
  lemma KnotHappens() returns (run: seq<State>)
    ensures Run(run) && Knot(run[|run| - 1], {0, 1})
  {
    hide Step;
    var empty, idle := Memo(false, false, None, None, None), Thread([], Running);
    var s := State(Shared([empty, empty], None, multiset{}, multiset{}, false, map[], [], []), [idle, idle]);
    run := [s];
    s, run := Extend(run, s, 0, Request(0));
    s, run := Extend(run, s, 0, Proceed);
    s, run := Extend(run, s, 0, Proceed);
    s, run := Extend(run, s, 1, Request(1));
    s, run := Extend(run, s, 1, Proceed);
    s, run := Extend(run, s, 1, Proceed);
    s, run := Extend(run, s, 0, Request(1));
    s, run := Extend(run, s, 0, Proceed);
    s, run := Extend(run, s, 1, Request(0));
    s, run := Extend(run, s, 1, Proceed);
  }

  lemma Extend(run: seq<State>, s: State, t: Tid, c: Choice) returns (s': State, run': seq<State>)
    requires Run(run) && run[|run| - 1] == s && Enabled(s, t, c)
    ensures var (g, th) := Act(s.g, s.threads[t], t, c); s' == State(g, s.threads[t := th])
    ensures Run(run') && run'[|run'| - 1] == s'
  {
    s' := Step(s, t, c);
    run' := run + [s'];
    assert Next(s, s');
    hide Step, Enabled, Init, Next;
    assert run'[..|run|] == run;
    forall i | 0 <= i < |run'| - 1 ensures Next(run'[i], run'[i + 1]) {
      if i < |run| - 1 { assert Next(run[i], run[i + 1]); }
    }
  }

  // ---- the end of the program ----

  // The values of the memos on a list, one for one.
  ghost predicate ValuesAlong(memos: seq<Memo>, list: seq<MemoId>, values: seq<Val>) {
    |values| == |list| && forall i :: 0 <= i < |list| ==> list[i] < |memos| && memos[list[i]].value == Some(values[i])
  }

  // dropAll: walks the list from the head and drops each value.
  method DropAll(memos: seq<Memo>, head: Option<MemoId>, ghost list: seq<MemoId>) returns (dropped: seq<Val>)
    requires Chain(memos, head, list) && forall i :: 0 <= i < |list| ==> list[i] < |memos| && memos[list[i]].value.Some?
    ensures ValuesAlong(memos, list, dropped)
  {
    dropped := [];
    var node := head;
    ghost var k := 0;
    assert list[0..] == list;
    while node != None
      invariant 0 <= k <= |list| && Chain(memos, node, list[k..])
      invariant ValuesAlong(memos, list[..k], dropped)
      decreases |list| - k
    {
      assert list[k..][1..] == list[k + 1..] && list[k..][0] == list[k];
      dropped := dropped + [memos[node.value].value.value];
      node := memos[node.value].next;
      k := k + 1;
    }
    assert list[..k] == list;
  }

  lemma {:induction false} DroppedArePermanent(memos: seq<Memo>, list: seq<MemoId>, dropped: seq<Val>, v: Val)
    requires ValuesAlong(memos, list, dropped)
    ensures multiset(dropped)[v] == Permanent(memos, list, v)
  {
    if list != [] {
      assert dropped == [dropped[0]] + dropped[1..];
      DroppedArePermanent(memos, list[1..], dropped[1..], v);
    }
  }

  // The list holds each stored memo exactly once, and dropping their values
  // leaves only the references handed to callers.
  lemma TeardownExact(run: seq<State>, i: nat, dropped: seq<Val>)
    requires Run(run) && i < |run|
    requires forall t :: 0 <= t < |run[i].threads| ==> run[i].threads[t] == Thread([], Running)
    requires ValuesAlong(run[i].g.memos, run[i].g.list, dropped)
    ensures Chain(run[i].g.memos, run[i].g.head, run[i].g.list) && Distinct(run[i].g.list)
    ensures forall m :: m in run[i].g.list <==> 0 <= m < |run[i].g.memos| && run[i].g.memos[m].value.Some?
    ensures forall v :: run[i].g.refs[v] == run[i].g.given[v] + multiset(dropped)[v]
  {
    RunInv(run, i);
    var s := run[i];
    forall m: MemoId | m < |s.g.memos| && s.g.memos[m].value.Some? ensures m in s.g.list {
      assert MemoOk(s.g, m);
      var t := s.g.winners[m];
      assert WorkOk(s.g, s.threads[t], t);
    }
    forall v ensures s.g.refs[v] == s.g.given[v] + multiset(dropped)[v] {
      assert ValueCount(s, v);
      SumZero(ValuesOf(v), s.threads);
      DroppedArePermanent(s.g.memos, s.g.list, dropped, v);
    }
  }

  // ---- one request by itself ----

  // Steps of thread t alone, no swap failing.
  function Alone(g: Shared, th: Thread, t: Tid, n: nat): (Shared, Thread)
    decreases n
  {
    if n == 0 || !Ready(g, th, Proceed) then (g, th)
    else
      var (g', th') := Act(g, th, t, Proceed);
      Alone(g', th', t, n - 1)
  }

  lemma AloneStep(g: Shared, th: Thread, t: Tid, n: nat)
    requires n > 0 && Ready(g, th, Proceed)
    ensures var (g', th') := Act(g, th, t, Proceed); Alone(g, th, t, n) == Alone(g', th', t, n - 1)
  {}

  lemma AloneDone(g: Shared, th: Thread, t: Tid)
    ensures Alone(g, th, t, 0) == (g, th)
  {}

  // A request for a finished memo gives its value, with a reference, and
  // evaluates nothing.
  lemma RequestDone(g: Shared, stack: seq<MemoId>, t: Tid, m: MemoId, v: Val)
    requires !g.cycle && m < |g.memos| && g.memos[m].claimed && g.memos[m].done && g.memos[m].value == Some(v)
    ensures var (g', th') := Act(g, Thread(stack, Running), t, Request(m));
            Alone(g', th', t, 3) ==
            (g.(refs := g.refs + multiset{v}, given := g.given + multiset{v}, log := g.log + [(m, v)]), Thread(stack, Running))
  {
    hide Alone;
    AloneStep(g, Thread(stack, Claim(m)), t, 3);
    AloneStep(g, Thread(stack, LoadDone(m)), t, 2);
    AloneStep(g, Thread(stack, TakeValue(m)), t, 1);
    AloneDone(g.(refs := g.refs + multiset{v}, given := g.given + multiset{v}, log := g.log + [(m, v)]), Thread(stack, Running), t);
  }

  // The first request for a memo claims it, marks it as the thread's own and
  // starts its evaluation.
  lemma RequestNew(g: Shared, stack: seq<MemoId>, t: Tid, m: MemoId)
    requires !g.cycle && m < |g.memos| && !g.memos[m].claimed
    ensures var (g', th') := Act(g, Thread(stack, Running), t, Request(m));
            Alone(g', th', t, 2) ==
            (g.(memos := g.memos[m := g.memos[m].(claimed := true, owner := Some(t))], winners := g.winners[m := t]),
             Thread([m] + stack, Running))
  {
    hide Alone;
    AloneStep(g, Thread(stack, Claim(m)), t, 2);
    var g1 := Put(g, m, g.memos[m].(claimed := true)).(winners := g.winners[m := t]);
    AloneStep(g1, Thread(stack, Own(m)), t, 1);
    var g2 := Put(g1, m, g1.memos[m].(owner := Some(t)));
    AloneDone(g2, Thread([m] + stack, Running), t);
    assert g2.memos == g.memos[m := g.memos[m].(claimed := true, owner := Some(t))];
  }

  // The end of an evaluation stores its result in the memo, puts the memo in
  // front of the cleanup list, marks it finished and returns the result.
  lemma FinishOne(g: Shared, stack: seq<MemoId>, t: Tid, m: MemoId, v: Val)
    requires !g.cycle && m < |g.memos|
    ensures var (g', th') := Act(g, Thread([m] + stack, Running), t, Finish(v));
            Alone(g', th', t, 5) ==
            (g.(memos := g.memos[m := g.memos[m].(value := Some(v), next := g.head, done := true)], head := Some(m),
                list := [m] + g.list, refs := g.refs + multiset{v} + multiset{v}, given := g.given + multiset{v},
                log := g.log + [(m, v)]),
             Thread(stack, Running))
  {
    hide Alone;
    var on := [m] + stack;
    var g0 := g.(refs := g.refs + multiset{v});
    AloneStep(g0, Thread(on, StoreValue(m, v)), t, 5);
    var g1 := Put(g0, m, g.memos[m].(value := Some(v))).(refs := g0.refs + multiset{v});
    AloneStep(g1, Thread(on, LoadHead(m, v)), t, 4);
    AloneStep(g1, Thread(on, LinkNext(m, v, g.head)), t, 3);
    var g2 := Put(g1, m, g1.memos[m].(next := g.head));
    FinishRest(g2, on, t, m, v);
    assert g2.memos[m := g2.memos[m].(done := true)] == g.memos[m := g.memos[m].(value := Some(v), next := g.head, done := true)];
    assert on[1..] == stack;
  }

  // A swap succeeds where the head is still the one the memo links to and the
  // weak swap does not fail; otherwise the memo is linked to the head there is.
  lemma SwapDecides(g: Shared, th: Thread, t: Tid, c: Choice)
    requires Ready(g, th, c) && th.pc.Swap?
    ensures var (g', th') := Act(g, th, t, c);
            if g.head == th.pc.seen && !c.Fail? then g'.head == Some(th.pc.m) && th'.pc == Publish(th.pc.m, th.pc.v)
            else g' == g && th'.pc == LinkNext(th.pc.m, th.pc.v, g.head)
  {}

  // A wait ends where the memo is done, and looks again where it is neither
  // done nor the thread's own.
  lemma WaitDecides(g: Shared, th: Thread, t: Tid, c: Choice)
    requires Ready(g, th, c)
    ensures var (g', th') := Act(g, th, t, c);
            && (th.pc.LoadDone? && g.memos[th.pc.m].done ==> g' == g && th'.pc == TakeValue(th.pc.m))
            && (th.pc.LoadDone? && !g.memos[th.pc.m].done ==> g' == g && th'.pc == CheckOwner(th.pc.m))
            && (th.pc.CheckOwner? && g.memos[th.pc.m].owner != Some(t) ==> g' == g && th'.pc == LoadDone(th.pc.m))
            && (th.pc.Claim? && g.memos[th.pc.m].claimed ==> g' == g && th'.pc == LoadDone(th.pc.m))
  {}

  lemma FinishRest(g: Shared, on: seq<MemoId>, t: Tid, m: MemoId, v: Val)
    requires !g.cycle && m < |g.memos| && on != []
    ensures Alone(g, Thread(on, Swap(m, v, g.head)), t, 2) ==
            (g.(memos := g.memos[m := g.memos[m].(done := true)], head := Some(m), list := [m] + g.list,
                given := g.given + multiset{v}, log := g.log + [(m, v)]),
             Thread(on[1..], Running))
  {
    hide Alone;
    AloneStep(g, Thread(on, Swap(m, v, g.head)), t, 2);
    var g1 := g.(head := Some(m), list := [m] + g.list);
    AloneStep(g1, Thread(on, Publish(m, v)), t, 1);
    AloneDone(Put(g1, m, g1.memos[m].(done := true)).(given := g.given + multiset{v}, log := g.log + [(m, v)]),
              Thread(on[1..], Running), t);
  }
}
