// Forcing one lazy cell from any number of threads, one shared access a step,
// under sequential consistency.
module Force {
  import opened Threads

  type Val = nat

  // What the cell's word holds: the unevaluated closure, then its value.
  datatype Content = Thunk | Value(v: Val)

  // Where a thread is inside force; each name is the access it does next.
  datatype PC =
    | Idle                           // not forcing this cell
    | ReadFlag                       // load the evaluated flag
    | ReadValue                      // flag seen set: load the word
    | ShareValue(r: Val)             // dup the loaded value
    | Lock                           // take the spin lock
    | Inspect                        // load the word and the flag, locked
    | ShareLocked(r: Val)            // evaluated meanwhile: dup, locked
    | UnlockValue(r: Val)            // release the lock
    | ShareThunk                     // take our own reference to the closure
    | UnlockThunk                    // release the lock
    | Evaluating                     // reading the closure and running it
    | Relock(r: Val)                 // take the lock with our result
    | Decide(r: Val)                 // is the cell still unevaluated?
    | Keep(r: Val)                   // dup our result for the cell
    | Store(r: Val)                  // write the word
    | SetFlag(r: Val)                // write the flag
    | UnlockWon(r: Val)              // release the lock
    | DropCells(r: Val)              // drop the cell's reference to the closure
    | Adopt(r: Val)                  // another result is stored: load and dup it
    | UnlockLost(r: Val, kept: Val)  // release the lock
    | DropOwn(r: Val, kept: Val)     // drop our result
    | DropOurs(r: Val)               // drop our reference to the closure
    | Return(r: Val)

  // refs and thunkRefs are the reference counts of the values and of the
  // closure; given are the references handed to callers.
  datatype Shared = Shared(flag: bool, content: Content, lock: Holder, thunkRefs: int,
                           refs: multiset<Val>, given: multiset<Val>, exited: bool)

  datatype State = State(g: Shared, pcs: seq<PC>)

  predicate Ready(g: Shared, pc: PC) {
    && !g.exited
    && (pc.Lock? || pc.Relock? ==> g.lock == Free)
    && (pc.ReadValue? || pc.Adopt? || ((pc.Inspect? || pc.Evaluating?) && g.flag) ==> g.content.Value?)
  }

  // One step of thread t. An evaluation may end with any result, or force the
  // same cell again: nested says which. A nested force that finds the cell
  // unevaluated ends the program, and one that finds it evaluated gives its value.
  function Act(g: Shared, pc: PC, t: Tid, result: Val, nested: bool): (Shared, PC)
    requires Ready(g, pc)
  {
    match pc
    case Idle => (g, ReadFlag)
    case ReadFlag => (g, if g.flag then ReadValue else Lock)
    case ReadValue => (g, ShareValue(g.content.v))
    case ShareValue(r) => (g.(refs := g.refs + multiset{r}), Return(r))
    case Lock => (g.(lock := Held(t)), Inspect)
    case Inspect => (g, if g.flag then ShareLocked(g.content.v) else ShareThunk)
    case ShareLocked(r) => (g.(refs := g.refs + multiset{r}), UnlockValue(r))
    case UnlockValue(r) => (g.(lock := Free), Return(r))
    case ShareThunk => (g.(thunkRefs := g.thunkRefs + 1), UnlockThunk)
    case UnlockThunk => (g.(lock := Free), Evaluating)
    case Evaluating =>
      if !nested then (g.(refs := g.refs + multiset{result}), Relock(result))
      else if !g.flag then (g.(exited := true), Evaluating)
      else (g.(refs := g.refs + multiset{g.content.v}, given := g.given + multiset{g.content.v}), Evaluating)
    case Relock(r) => (g.(lock := Held(t)), Decide(r))
    case Decide(r) => (g, if g.flag then Adopt(r) else Keep(r))
    case Keep(r) => (g.(refs := g.refs + multiset{r}), Store(r))
    case Store(r) => (g.(content := Value(r)), SetFlag(r))
    case SetFlag(r) => (g.(flag := true), UnlockWon(r))
    case UnlockWon(r) => (g.(lock := Free), DropCells(r))
    case DropCells(r) => (g.(thunkRefs := g.thunkRefs - 1), DropOurs(r))
    case Adopt(r) => (g.(refs := g.refs + multiset{g.content.v}), UnlockLost(r, g.content.v))
    case UnlockLost(r, kept) => (g.(lock := Free), DropOwn(r, kept))
    case DropOwn(r, kept) => (g.(refs := g.refs - multiset{r}), DropOurs(kept))
    case DropOurs(r) => (g.(thunkRefs := g.thunkRefs - 1), Return(r))
    case Return(r) => (g.(given := g.given + multiset{r}), Idle)
  }

  predicate Enabled(s: State, t: Tid) { t < |s.pcs| && Ready(s.g, s.pcs[t]) }

  function Step(s: State, t: Tid, result: Val, nested: bool): State
    requires Enabled(s, t)
  {
    var (g, pc) := Act(s.g, s.pcs[t], t, result, nested);
    State(g, s.pcs[t := pc])
  }

  ghost predicate Next(s: State, s': State) {
    exists t, result, nested :: Enabled(s, t) && s' == Step(s, t, result, nested)
  }

  // mkLazy took over the closure's reference; others is how many more exist.
  ghost predicate Init(s: State, others: nat) {
    && !s.g.flag && s.g.content == Thunk && s.g.lock == Free && !s.g.exited
    && (forall t :: 0 <= t < |s.pcs| ==> s.pcs[t] == Idle)
    && s.g.thunkRefs == others + 1 && s.g.refs == multiset{} && s.g.given == multiset{}
  }

  // Every interleaving from the start.
  ghost predicate Run(run: seq<State>, others: nat) {
    && run != [] && Init(run[0], others)
    && forall i :: 0 <= i < |run| - 1 ==> Next(run[i], run[i + 1])
  }

  // ---- the invariant ----

  predicate Locked(pc: PC) {
    pc.Inspect? || pc.ShareLocked? || pc.UnlockValue? || pc.ShareThunk? || pc.UnlockThunk? || pc.Decide?
    || pc.Keep? || pc.Store? || pc.SetFlag? || pc.UnlockWon? || pc.Adopt? || pc.UnlockLost?
  }

  // What a thread at pc may rely on.
  datatype Fact = Nothing | Unevaluated | Written(r: Val) | Evaluated | Known(r: Val)

  function Need(pc: PC): Fact {
    match pc
    case ShareThunk => Unevaluated
    case Keep(_) => Unevaluated
    case Store(_) => Unevaluated
    case SetFlag(r) => Written(r)
    case ReadValue => Evaluated
    case Adopt(_) => Evaluated
    case UnlockLost(_, kept) => Known(kept)
    case DropOwn(_, kept) => Known(kept)
    case ShareValue(r) => Known(r)
    case ShareLocked(r) => Known(r)
    case UnlockValue(r) => Known(r)
    case UnlockWon(r) => Known(r)
    case DropCells(r) => Known(r)
    case DropOurs(r) => Known(r)
    case Return(r) => Known(r)
    case _ => Nothing
  }

  predicate Holds(g: Shared, f: Fact) {
    match f
    case Nothing => true
    case Unevaluated => !g.flag && g.content == Thunk
    case Written(r) => !g.flag && g.content == Value(r)
    case Evaluated => g.flag && g.content.Value?
    case Known(r) => g.flag && g.content == Value(r)
  }

  predicate ThreadOk(g: Shared, pc: PC, t: Tid) {
    (Locked(pc) <==> g.lock == Held(t)) && Holds(g, Need(pc))
  }

  // The word is written just before the flag, by the thread with the lock.
  ghost predicate CellOk(s: State) {
    && (s.g.flag ==> s.g.content.Value?)
    && (s.g.lock.Held? ==> s.g.lock.owner < |s.pcs|)
    && (s.g.content.Value? && !s.g.flag ==> s.g.lock.Held? && s.pcs[s.g.lock.owner].SetFlag?)
    && (forall r :: r in s.g.given ==> s.g.flag && s.g.content == Value(r))
  }

  ghost predicate Protocol(s: State) {
    CellOk(s) && forall t :: 0 <= t < |s.pcs| ==> ThreadOk(s.g, s.pcs[t], t)
  }

  // The references to the closure, and to the value v, of a thread at pc.
  function Thunks(pc: PC): nat {
    if pc.SetFlag? || pc.UnlockWon? || pc.DropCells? then 2
    else if pc.UnlockThunk? || pc.Evaluating? || pc.Relock? || pc.Decide? || pc.Keep? || pc.Store?
            || pc.Adopt? || pc.UnlockLost? || pc.DropOwn? || pc.DropOurs? then 1
    else 0
  }

  function Values(pc: PC, v: Val): nat {
    match pc
    case UnlockValue(r) => One(r, v)
    case Relock(r) => One(r, v)
    case Decide(r) => One(r, v)
    case Keep(r) => One(r, v)
    case Store(r) => One(r, v) + One(r, v)
    case SetFlag(r) => One(r, v)
    case UnlockWon(r) => One(r, v)
    case DropCells(r) => One(r, v)
    case Adopt(r) => One(r, v)
    case UnlockLost(r, kept) => One(r, v) + One(kept, v)
    case DropOwn(r, kept) => One(r, v) + One(kept, v)
    case DropOurs(r) => One(r, v)
    case Return(r) => One(r, v)
    case _ => 0
  }

  function ValuesOf(v: Val): PC -> nat { pc => Values(pc, v) }

  // One reference to the closure for the unevaluated cell, one for each thread
  // evaluating it, and the winner's second until it drops the cell's.
  ghost predicate ThunkCount(s: State, others: nat) {
    s.g.thunkRefs == others + CellsThunk(s.g) + Sum(Thunks, s.pcs)
  }

  function CellsThunk(g: Shared): nat { if g.content.Thunk? then 1 else 0 }

  // One reference to a value for the cell, for each thread holding it and for
  // each caller it was given to.
  ghost predicate ValueCount(s: State, v: Val) {
    s.g.refs[v] == s.g.given[v] + CellsValue(s.g, v) + Sum(ValuesOf(v), s.pcs)
  }

  function CellsValue(g: Shared, v: Val): nat { if g.content == Value(v) then 1 else 0 }

  ghost predicate Inv(s: State, others: nat) {
    Protocol(s) && ThunkCount(s, others) && forall v :: ValueCount(s, v)
  }

  // ---- every step keeps it ----

  lemma InitInv(s: State, others: nat)
    requires Init(s, others)
    ensures Inv(s, others)
  {
    SumZero(Thunks, s.pcs);
    forall v ensures ValueCount(s, v) { SumZero(ValuesOf(v), s.pcs); }
  }

  // Only the two writes, under the lock, change the cell.
  ghost predicate Writes(g: Shared, pc: PC, t: Tid, g': Shared) {
    && (g'.content != g.content ==> pc.Store? && g.content == Thunk && g.lock == Held(t) && g'.lock == g.lock)
    && (g'.flag != g.flag ==> pc.SetFlag? && g'.flag && g.lock == Held(t) && g.content.Value?)
    && (g'.lock != g.lock ==> (g.lock == Free && g'.lock == Held(t)) || (g.lock == Held(t) && g'.lock == Free))
    && g.given <= g'.given
    && (forall r :: r in g'.given && r !in g.given ==> g.flag && g.content == Value(r) && g'.flag && g'.content == g.content)
  }

  lemma ActWrites(g: Shared, pc: PC, t: Tid, result: Val, nested: bool)
    requires Ready(g, pc) && ThreadOk(g, pc, t)
    ensures Writes(g, pc, t, Act(g, pc, t, result, nested).0)
    ensures pc.Store? ==> Act(g, pc, t, result, nested).1.SetFlag?
    ensures pc.SetFlag? ==> Act(g, pc, t, result, nested).0.flag
  {}

  lemma ActThread(g: Shared, pc: PC, t: Tid, result: Val, nested: bool)
    requires Ready(g, pc) && ThreadOk(g, pc, t) && (g.flag ==> g.content.Value?)
    requires Locked(pc) && g.content.Value? && !g.flag ==> pc.SetFlag?
    ensures ThreadOk(Act(g, pc, t, result, nested).0, Act(g, pc, t, result, nested).1, t)
  {
    ActLocks(g, pc, t, result, nested);
    ActNeeds(g, pc, t, result, nested);
    hide Act, Need, Locked, Holds;
  }

  lemma ActLocks(g: Shared, pc: PC, t: Tid, result: Val, nested: bool)
    requires Ready(g, pc) && (Locked(pc) <==> g.lock == Held(t))
    ensures var (g', pc') := Act(g, pc, t, result, nested); Locked(pc') <==> g'.lock == Held(t)
  {}

  lemma ActNeeds(g: Shared, pc: PC, t: Tid, result: Val, nested: bool)
    requires Ready(g, pc) && Holds(g, Need(pc)) && (g.flag ==> g.content.Value?)
    requires Locked(pc) && g.content.Value? && !g.flag ==> pc.SetFlag?
    ensures var (g', pc') := Act(g, pc, t, result, nested); Holds(g', Need(pc'))
  {}

  lemma OtherThread(g: Shared, pc: PC, t: Tid, g': Shared, other: PC, u: Tid)
    requires t != u && ThreadOk(g, other, u) && Writes(g, pc, t, g')
    ensures ThreadOk(g', other, u)
  {}

  lemma StepCell(s: State, t: Tid, result: Val, nested: bool)
    requires Enabled(s, t) && CellOk(s) && ThreadOk(s.g, s.pcs[t], t)
    ensures CellOk(Step(s, t, result, nested))
  {
    hide Act, ThreadOk;
    ActWrites(s.g, s.pcs[t], t, result, nested);
    LockedAt(s.g, s.pcs[t], t);
  }

  lemma LockedAt(g: Shared, pc: PC, t: Tid)
    requires ThreadOk(g, pc, t)
    ensures Locked(pc) <==> g.lock == Held(t)
    ensures pc.Return? ==> g.flag && g.content == Value(pc.r)
    ensures pc.Store? || pc.SetFlag? ==> g.lock == Held(t)
  {}

  lemma StepProtocol(s: State, t: Tid, result: Val, nested: bool)
    requires Enabled(s, t) && Protocol(s)
    ensures Protocol(Step(s, t, result, nested))
  {
    hide Act, ThreadOk, Writes, Ready;
    assert ThreadOk(s.g, s.pcs[t], t);
    StepCell(s, t, result, nested);
    LockedAt(s.g, s.pcs[t], t);
    ActWrites(s.g, s.pcs[t], t, result, nested);
    ActThread(s.g, s.pcs[t], t, result, nested);
    var s' := Step(s, t, result, nested);
    forall u | 0 <= u < |s'.pcs| ensures ThreadOk(s'.g, s'.pcs[u], u) {
      if u != t { OtherThread(s.g, s.pcs[t], t, s'.g, s.pcs[u], u); }
    }
  }

  lemma ActThunks(g: Shared, pc: PC, t: Tid, result: Val, nested: bool)
    requires Ready(g, pc) && ThreadOk(g, pc, t)
    ensures var (g', pc') := Act(g, pc, t, result, nested);
            g'.thunkRefs - g.thunkRefs == CellsThunk(g') + Thunks(pc') - CellsThunk(g) - Thunks(pc)
  {}

  // A step moves a reference, or makes or gives up the one it counts.
  ghost predicate Balanced(g: Shared, pc: PC, g': Shared, pc': PC, v: Val) {
    g'.refs[v] + g.given[v] + CellsValue(g, v) + Values(pc, v) ==
    g.refs[v] + g'.given[v] + CellsValue(g', v) + Values(pc', v)
  }

  // The steps that touch no count.
  predicate Moves(pc: PC) {
    !pc.ShareValue? && !pc.ShareLocked? && !pc.Evaluating? && !pc.Keep? && !pc.Adopt? && !pc.DropOwn? && !pc.Return?
  }

  lemma ActMoves(g: Shared, pc: PC, t: Tid, result: Val, nested: bool, v: Val)
    requires Ready(g, pc) && ThreadOk(g, pc, t) && Moves(pc)
    ensures var (g', pc') := Act(g, pc, t, result, nested); Balanced(g, pc, g', pc', v)
  {}

  // The steps that take one more reference to a value and keep it.
  predicate Dups(pc: PC) { pc.ShareValue? || pc.ShareLocked? || pc.Keep? || pc.Adopt? }

  lemma ActDups(g: Shared, pc: PC, t: Tid, result: Val, nested: bool, v: Val)
    requires Ready(g, pc) && Dups(pc)
    ensures var (g', pc') := Act(g, pc, t, result, nested); Balanced(g, pc, g', pc', v)
  {}

  lemma ActEvaluates(g: Shared, t: Tid, result: Val, nested: bool, v: Val)
    requires Ready(g, Evaluating)
    ensures var (g', pc') := Act(g, Evaluating, t, result, nested); Balanced(g, Evaluating, g', pc', v)
  {}

  lemma ActGives(g: Shared, pc: PC, t: Tid, result: Val, nested: bool, v: Val)
    requires Ready(g, pc) && (pc.DropOwn? || pc.Return?) && Values(pc, v) <= g.refs[v]
    ensures var (g', pc') := Act(g, pc, t, result, nested); Balanced(g, pc, g', pc', v)
  {}

  lemma ActCounts(g: Shared, pc: PC, t: Tid, result: Val, nested: bool, v: Val)
    requires Ready(g, pc) && !Moves(pc) && Values(pc, v) <= g.refs[v]
    ensures var (g', pc') := Act(g, pc, t, result, nested); Balanced(g, pc, g', pc', v)
  {
    hide Act, Ready, Values, Balanced;
    if Dups(pc) {
      ActDups(g, pc, t, result, nested, v);
    } else if pc.Evaluating? {
      ActEvaluates(g, t, result, nested, v);
    } else {
      ActGives(g, pc, t, result, nested, v);
    }
  }

  lemma ActValues(g: Shared, pc: PC, t: Tid, result: Val, nested: bool, v: Val)
    requires Ready(g, pc) && ThreadOk(g, pc, t) && Values(pc, v) <= g.refs[v]
    ensures var (g', pc') := Act(g, pc, t, result, nested); Balanced(g, pc, g', pc', v)
  {
    hide *;
    if Moves(pc) { ActMoves(g, pc, t, result, nested, v); } else { ActCounts(g, pc, t, result, nested, v); }
  }

  lemma StepInv(s: State, t: Tid, result: Val, nested: bool, others: nat)
    requires Enabled(s, t) && Inv(s, others)
    ensures Inv(Step(s, t, result, nested), others)
  {
    StepProtocol(s, t, result, nested);
    hide Act, Sum, Thunks, Values, Ready, CellOk, ThreadOk, CellsThunk, CellsValue;
    var s', pc := Step(s, t, result, nested), s.pcs[t];
    assert ThreadOk(s.g, pc, t);
    SumAt(Thunks, s.pcs, t, s'.pcs[t]);
    ActThunks(s.g, pc, t, result, nested);
    forall v ensures ValueCount(s', v) {
      assert ValueCount(s, v);
      SumAt(ValuesOf(v), s.pcs, t, s'.pcs[t]);
      ActValues(s.g, pc, t, result, nested, v);
    }
  }

  lemma {:induction false} RunInv(run: seq<State>, others: nat, i: nat)
    requires Run(run, others) && i < |run|
    ensures Inv(run[i], others)
  {
    hide Inv, Init, Step, Enabled;
    if i == 0 {
      InitInv(run[0], others);
    } else {
      RunInv(run, others, i - 1);
      assert Next(run[i - 1], run[i - 1 + 1]);
      var t: Tid, result: Val, nested :| Enabled(run[i - 1], t) && run[i] == Step(run[i - 1], t, result, nested);
      StepInv(run[i - 1], t, result, nested, others);
    }
  }

  // ---- over whole runs ----

  // The flag never goes back and the word changes at most once.
  lemma {:induction false} WrittenOnce(run: seq<State>, others: nat, i: nat, j: nat)
    requires Run(run, others) && i <= j < |run|
    ensures run[i].g.flag ==> run[j].g.flag
    ensures run[i].g.content.Value? ==> run[j].g.content == run[i].g.content
    ensures run[i].g.given <= run[j].g.given && |run[i].pcs| == |run[j].pcs|
  {
    hide Inv, Init, Act, Ready;
    if i < j {
      WrittenOnce(run, others, i, j - 1);
      RunInv(run, others, j - 1);
      assert Next(run[j - 1], run[j - 1 + 1]);
      var t: Tid, result: Val, nested :| Enabled(run[j - 1], t) && run[j] == Step(run[j - 1], t, result, nested);
      InvThread(run[j - 1], others, t);
      ActWrites(run[j - 1].g, run[j - 1].pcs[t], t, result, nested);
    }
  }

  lemma InvThread(s: State, others: nat, t: Tid)
    requires Inv(s, others) && t < |s.pcs|
    ensures ThreadOk(s.g, s.pcs[t], t)
  {}

  // Any two forces that finish, in any threads at any time, give the same
  // value, and it is the one the cell holds from then on.
  lemma OneResult(run: seq<State>, others: nat, i: nat, j: nat, r: Val, r': Val)
    requires Run(run, others) && i <= j < |run| && r in run[i].g.given && r' in run[j].g.given
    ensures r == r' && run[j].g.flag && run[j].g.content == Value(r)
  {
    RunInv(run, others, i);
    RunInv(run, others, j);
    WrittenOnce(run, others, i, j);
  }

  // A thread that touches the closure: the cell's own or a reference of its own.
  predicate UsesThunk(pc: PC) { pc.ShareThunk? || Thunks(pc) > 0 }

  // The closure is allocated while any thread dispatches from it, and a value
  // is allocated while any thread is about to share it.
  lemma StaysLive(run: seq<State>, others: nat, i: nat, t: Tid)
    requires Run(run, others) && i < |run| && t < |run[i].pcs|
    ensures UsesThunk(run[i].pcs[t]) ==> run[i].g.thunkRefs > others
    ensures run[i].pcs[t].ShareValue? || run[i].pcs[t].ShareLocked? ==> run[i].g.refs[run[i].pcs[t].r] > 0
  {
    RunInv(run, others, i);
    var s := run[i];
    InvThread(s, others, t);
    SumAt(Thunks, s.pcs, t, s.pcs[t]);
    if s.pcs[t].ShareValue? || s.pcs[t].ShareLocked? {
      assert ValueCount(s, s.pcs[t].r);
    }
  }

  // When no force is under way and the cell is evaluated, its reference to the
  // closure is gone and it holds one to its value; every other is a caller's.
  lemma Settles(run: seq<State>, others: nat, i: nat, v: Val)
    requires Run(run, others) && i < |run| && run[i].g.flag
    requires forall t :: 0 <= t < |run[i].pcs| ==> run[i].pcs[t].Idle?
    ensures run[i].g.thunkRefs == others
    ensures run[i].g.refs[v] == run[i].g.given[v] + (if run[i].g.content == Value(v) then 1 else 0)
  {
    RunInv(run, others, i);
    SumZero(Thunks, run[i].pcs);
    SumZero(ValuesOf(v), run[i].pcs);
    assert ValueCount(run[i], v);
  }

  // Some force under way can always take a step: the lock is never stuck.
  lemma NoDeadlock(run: seq<State>, others: nat, i: nat, t: Tid) returns (u: Tid)
    requires Run(run, others) && i < |run| && !run[i].g.exited
    requires t < |run[i].pcs| && !run[i].pcs[t].Idle?
    ensures u < |run[i].pcs| && !run[i].pcs[u].Idle? && Enabled(run[i], u)
  {
    RunInv(run, others, i);
    var s := run[i];
    u := if s.g.lock.Held? then s.g.lock.owner else t;
    InvThread(s, others, u);
  }

  // Two threads are never both past the lock.
  lemma LockExcludes(run: seq<State>, others: nat, i: nat, t: Tid, u: Tid)
    requires Run(run, others) && i < |run| && t < |run[i].pcs| && u < |run[i].pcs|
    requires Locked(run[i].pcs[t]) && Locked(run[i].pcs[u])
    ensures t == u
  {
    RunInv(run, others, i);
    InvThread(run[i], others, t);
    InvThread(run[i], others, u);
  }

  // ---- one force by itself ----

  // A force nested in an evaluation ends the program exactly where the cell is
  // unevaluated, and no other step does.
  lemma ExitsExactly(s: State, t: Tid, result: Val, nested: bool)
    requires Enabled(s, t)
    ensures Step(s, t, result, nested).g.exited <==> s.pcs[t].Evaluating? && nested && !s.g.flag
  {}

  // Of an evaluated cell it gives the value, with a new reference, and the
  // evaluation goes on.
  lemma NestedGives(g: Shared, t: Tid, result: Val)
    requires !g.exited && g.flag && g.content.Value?
    ensures var v := g.content.v;
            Act(g, Evaluating, t, result, true) ==
            (g.(refs := g.refs + multiset{v}, given := g.given + multiset{v}), Evaluating)
  {}

  // Steps of thread t alone, its evaluation ending with result, from pc on
  // until it is idle again.
  function Alone(g: Shared, pc: PC, t: Tid, result: Val, n: nat): (Shared, PC)
    decreases n
  {
    if n == 0 || !Ready(g, pc) then (g, pc)
    else
      var (g', pc') := Act(g, pc, t, result, false);
      Alone(g', pc', t, result, n - 1)
  }

  lemma AloneStep(g: Shared, pc: PC, t: Tid, result: Val, n: nat)
    requires n > 0 && Ready(g, pc)
    ensures var (g', pc') := Act(g, pc, t, result, false);
            Alone(g, pc, t, result, n) == Alone(g', pc', t, result, n - 1)
  {}

  lemma AloneDone(g: Shared, pc: PC, t: Tid, result: Val)
    ensures Alone(g, pc, t, result, 0) == (g, pc)
  {}

  // The force of an evaluated cell takes five steps and the lock never: one
  // more reference to the value, and it is handed over.
  lemma ForceEvaluated(g: Shared, t: Tid, result: Val)
    requires !g.exited && g.flag && g.content.Value?
    ensures var v := g.content.v;
            Alone(g, Idle, t, result, 5) == (g.(refs := g.refs + multiset{v}, given := g.given + multiset{v}), Idle)
  {
    hide Alone;
    AloneStep(g, Idle, t, result, 5);
    AloneStep(g, ReadFlag, t, result, 4);
    AloneStep(g, ReadValue, t, result, 3);
    var g1 := g.(refs := g.refs + multiset{g.content.v});
    AloneStep(g, ShareValue(g.content.v), t, result, 2);
    AloneStep(g1, Return(g.content.v), t, result, 1);
    AloneDone(g1.(given := g.given + multiset{g.content.v}), Idle, t, result);
  }

  // The first force of a cell evaluates it: the cell and the caller get a
  // reference to the result each, the cell's to the closure goes, and the lock
  // is free again.
  lemma ForceUnevaluated(g: Shared, t: Tid, result: Val)
    requires !g.exited && !g.flag && g.content == Thunk && g.lock == Free
    ensures Alone(g, Idle, t, result, 16) ==
            (g.(flag := true, content := Value(result), thunkRefs := g.thunkRefs - 1,
                refs := g.refs + multiset{result} + multiset{result}, given := g.given + multiset{result}), Idle)
  {
    hide Alone, Act, Ready;
    TakesThunk(g, t, result);
    var g1 := g.(thunkRefs := g.thunkRefs + 1);
    Stores(g1, t, result);
    var g2 := g1.(refs := g1.refs + multiset{result} + multiset{result}, content := Value(result), flag := true, lock := Held(t));
    GivesUp(g2, t, result);
  }

  lemma TakesThunk(g: Shared, t: Tid, result: Val)
    requires !g.exited && !g.flag && g.content == Thunk && g.lock == Free
    ensures Alone(g, Idle, t, result, 16) == Alone(g.(thunkRefs := g.thunkRefs + 1), Evaluating, t, result, 10)
  {
    hide Alone;
    AloneStep(g, Idle, t, result, 16);
    AloneStep(g, ReadFlag, t, result, 15);
    AloneStep(g, Lock, t, result, 14);
    var held := g.(lock := Held(t));
    AloneStep(held, Inspect, t, result, 13);
    AloneStep(held, ShareThunk, t, result, 12);
    AloneStep(held.(thunkRefs := g.thunkRefs + 1), UnlockThunk, t, result, 11);
  }

  lemma Stores(g: Shared, t: Tid, result: Val)
    requires !g.exited && !g.flag && g.content == Thunk && g.lock == Free
    ensures Alone(g, Evaluating, t, result, 10) ==
            Alone(g.(refs := g.refs + multiset{result} + multiset{result}, content := Value(result), flag := true, lock := Held(t)),
                  UnlockWon(result), t, result, 4)
  {
    hide Alone;
    AloneStep(g, Evaluating, t, result, 10);
    var g1 := g.(refs := g.refs + multiset{result});
    AloneStep(g1, Relock(result), t, result, 9);
    var g2 := g1.(lock := Held(t));
    AloneStep(g2, Decide(result), t, result, 8);
    AloneStep(g2, Keep(result), t, result, 7);
    var g3 := g2.(refs := g2.refs + multiset{result});
    AloneStep(g3, Store(result), t, result, 6);
    AloneStep(g3.(content := Value(result)), SetFlag(result), t, result, 5);
  }

  lemma GivesUp(g: Shared, t: Tid, result: Val)
    requires !g.exited && g.flag && g.content == Value(result) && g.lock == Held(t)
    ensures Alone(g, UnlockWon(result), t, result, 4) ==
            (g.(lock := Free, thunkRefs := g.thunkRefs - 2, given := g.given + multiset{result}), Idle)
  {
    hide Alone;
    AloneStep(g, UnlockWon(result), t, result, 4);
    var g1 := g.(lock := Free);
    AloneStep(g1, DropCells(result), t, result, 3);
    AloneStep(g1.(thunkRefs := g.thunkRefs - 1), DropOurs(result), t, result, 2);
    var g2 := g1.(thunkRefs := g.thunkRefs - 2);
    AloneStep(g2, Return(result), t, result, 1);
    AloneDone(g2.(given := g.given + multiset{result}), Idle, t, result);
  }

  // A force that finds the cell evaluated once it has the lock shares the value.
  lemma ForceOvertaken(g: Shared, t: Tid, result: Val)
    requires !g.exited && g.flag && g.content.Value? && g.lock == Free
    ensures var v := g.content.v;
            Alone(g, Lock, t, result, 5) == (g.(refs := g.refs + multiset{v}, given := g.given + multiset{v}), Idle)
  {
    hide Alone;
    var v := g.content.v;
    AloneStep(g, Lock, t, result, 5);
    var g1 := g.(lock := Held(t));
    AloneStep(g1, Inspect, t, result, 4);
    AloneStep(g1, ShareLocked(v), t, result, 3);
    var g2 := g1.(refs := g.refs + multiset{v});
    AloneStep(g2, UnlockValue(v), t, result, 2);
    var g3 := g2.(lock := Free);
    AloneStep(g3, Return(v), t, result, 1);
    AloneDone(g3.(given := g.given + multiset{v}), Idle, t, result);
  }

  // A force that finds the cell evaluated when its own evaluation ends gives
  // the stored value, and drops what it made and its hold on the closure.
  lemma ForceLost(g: Shared, t: Tid, result: Val)
    requires !g.exited && g.flag && g.content.Value? && g.lock == Free
    ensures var v := g.content.v;
            Alone(g, Evaluating, t, result, 8) ==
            (g.(refs := g.refs + multiset{result} + multiset{v} - multiset{result}, thunkRefs := g.thunkRefs - 1,
                given := g.given + multiset{v}), Idle)
  {
    hide Alone;
    var v := g.content.v;
    AloneStep(g, Evaluating, t, result, 8);
    var g1 := g.(refs := g.refs + multiset{result});
    AloneStep(g1, Relock(result), t, result, 7);
    var g2 := g1.(lock := Held(t));
    AloneStep(g2, Decide(result), t, result, 6);
    AloneStep(g2, Adopt(result), t, result, 5);
    var g3 := g2.(refs := g2.refs + multiset{v});
    AloneStep(g3, UnlockLost(result, v), t, result, 4);
    var g4 := g3.(lock := Free);
    AloneStep(g4, DropOwn(result, v), t, result, 3);
    var g5 := g4.(refs := g4.refs - multiset{result});
    AloneStep(g5, DropOurs(v), t, result, 2);
    var g6 := g5.(thunkRefs := g.thunkRefs - 1);
    AloneStep(g6, Return(v), t, result, 1);
    AloneDone(g6.(given := g.given + multiset{v}), Idle, t, result);
  }
}
