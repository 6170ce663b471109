// Closure application: grown in place when unique, copied when shared, and
// run when saturated, each argument reference consumed exactly once.
module Closures {
  import opened RefCount

  // ---- what a value word means ----

  // The value a word stands for. Numbers and strings stand for their contents;
  // mutable and lazy cells and handles stand for themselves.
  datatype Val =
    | Nothing | Word(w: int) | Num(n: int) | Str(bytes: seq<int>) | Cell(id: Id)
    | Con(tag: int, args: seq<Val>) | Fun(fn: nat, arity: nat, args: seq<Val>)

  ghost predicate Means(m: Objs, v: Value, val: Val)
    decreases val
  {
    match val
    case Nothing => v == Null
    case Word(w) => v == Imm(w)
    case Num(n) => v.Ref? && v.id in m && m[v.id].kind == Number(n)
    case Str(bytes) => v.Ref? && v.id in m && m[v.id].kind == Text(bytes)
    case Cell(id) => v == Ref(id) && id in m && IsCell(m[id].kind)
    case Con(tag, args) =>
      && Holds(m, v, Constructor(tag), |args|)
      && forall i :: 0 <= i < |args| ==> Means(m, m[v.id].fields[i], args[i])
    case Fun(fn, arity, args) =>
      && Holds(m, v, Closure(fn, arity), |args|)
      && forall i :: 0 <= i < |args| ==> Means(m, m[v.id].fields[i], args[i])
  }

  predicate IsCell(k: Kind) { k.Lazy? || k.IORef? || k.Array? || k.Handle? }

  predicate Holds(m: Objs, v: Value, kind: Kind, count: nat) {
    v.Ref? && v.id in m && m[v.id].kind == kind && |m[v.id].fields| == count
  }

  ghost predicate MeansAll(m: Objs, vs: seq<Value>, vals: seq<Val>) {
    |vs| == |vals| && forall i :: 0 <= i < |vs| ==> Means(m, vs[i], vals[i])
  }

  // ---- the compiled functions ----

  // The arity of each function the closures of a heap may refer to.
  type Functions = map<nat, nat>

  datatype Outcome = Outcome(objs: Objs, bound: nat, value: Value)

  // A call of function fn with all its arguments.
  type Run = (Objs, nat, nat, seq<Value>) -> Outcome

  // The results a call may have.
  type Sem = (nat, seq<Val>, Val) -> bool

  // A saturated closure, waiting to be run.
  predicate Waiting(m: Objs, v: Value) {
    v.Ref? && v.id in m && m[v.id].kind.Closure? && |m[v.id].fields| >= m[v.id].kind.arity
  }

  // Closures are over known functions, never have too many arguments, and wait
  // nowhere but in a lazy cell or in the hands of the running code.
  predicate TidyAt(m: Objs, fs: Functions, id: Id)
    requires id in m
  {
    var o := m[id];
    && (o.kind.Closure? ==> o.kind.fn in fs && fs[o.kind.fn] == o.kind.arity && |o.fields| <= o.kind.arity)
    && (!o.kind.Lazy? ==> forall x :: x in o.fields ==> !Waiting(m, x))
  }

  ghost predicate Tidy(m: Objs, dying: set<Id>, fs: Functions) {
    forall id :: id in m && id !in dying ==> TidyAt(m, fs, id)
  }

  predicate Plain(m: Objs, vs: seq<Value>) { forall i :: 0 <= i < |vs| ==> !Waiting(m, vs[i]) }

  // A reference that is not counted.
  predicate Uncounted(m: Objs, v: Value) { v.Ref? ==> v.id in m && m[v.id].rc == MAX }

  // The closure's arguments may be consumed without a dup.
  ghost predicate Movable(m: Objs, c: Id)
    requires c in m
  {
    m[c].rc == 1 || forall i :: 0 <= i < |m[c].fields| ==> Uncounted(m, m[c].fields[i])
  }

  // A returned closure that waits may be consumed.
  ghost predicate Returnable(m: Objs, v: Value) { Waiting(m, v) ==> Movable(m, v.id) }

  ghost predicate SameCells(m: Objs, m': Objs) {
    forall id :: id in m && id in m' ==> m'[id].kind == m[id].kind && m'[id].fields == m[id].fields
  }

  ghost predicate Immortals(m: Objs, m': Objs) {
    forall id :: id in m && m[id].rc == MAX ==> id in m' && m'[id].rc == MAX
  }

  // An owed object keeps its kind, and its fields unless it is a mutable cell.
  predicate KeepsCell(m: Objs, m': Objs, id: Id)
    requires id in m
  {
    && id in m' && m'[id].kind == m[id].kind
    && (m[id].kind.Constructor? || m[id].kind.Closure? ==> m'[id].fields == m[id].fields)
  }

  // Whatever is owed keeps its meaning, and immortal objects stay immortal.
  ghost predicate Preserves(m: Objs, m': Objs, dying: set<Id>, owed: multiset<Value>) {
    && Untouched(m, m', dying) && Immortals(m, m')
    && (forall v, val :: owed[v] > 0 && Means(m, v, val) ==> Means(m', v, val))
    && (forall id :: owed[Ref(id)] > 0 && id in m ==> KeepsCell(m, m', id))
  }

  ghost predicate CallReady(m: Objs, n: nat, dying: set<Id>, owed: multiset<Value>, fs: Functions, fn: nat, args: seq<Value>) {
    && Ok(m, n, dying, owed + multiset(args)) && Tidy(m, dying, fs)
    && fn in fs && |args| == fs[fn] && Plain(m, args)
  }

  // One owned value more, no argument left, and nothing else disturbed.
  ghost predicate CallDone(m: Objs, m': Objs, n': nat, dying: set<Id>, owed: multiset<Value>, fs: Functions, v: Value) {
    && Ok(m', n', dying, owed + multiset{v}) && Tidy(m', dying, fs)
    && Preserves(m, m', dying, owed) && Returnable(m', v)
  }

  // The functions consume their arguments and return one owned reference. It
  // may be a closure that waits, for the trampoline, if it can be consumed.
  ghost predicate Owning(run: Run, fs: Functions) {
    forall m, n: nat, dying, owed, fn: nat, args :: CallReady(m, n, dying, owed, fs, fn, args) ==>
      var out := run(m, n, fn, args);
      CallDone(m, out.objs, out.bound, dying, owed, fs, out.value)
  }

  // v is a value that goal allows, or a closure every result of which is.
  ghost predicate Reaches(m: Objs, v: Value, sem: Sem, goal: Val -> bool) {
    if Waiting(m, v) then
      exists vals :: MeansAll(m, m[v.id].fields, vals)
        && forall val :: sem(m[v.id].kind.fn, vals, val) ==> goal(val)
    else
      exists val :: Means(m, v, val) && goal(val)
  }

  ghost function Result(sem: Sem, fn: nat, vals: seq<Val>): Val -> bool { val => sem(fn, vals, val) }

  // What the functions return is what sem allows for what they were given.
  ghost predicate Computes(run: Run, fs: Functions, sem: Sem) {
    forall m, n: nat, dying, owed, fn: nat, args, vals :: CallReady(m, n, dying, owed, fs, fn, args) && MeansAll(m, args, vals) ==>
      var out := run(m, n, fn, args);
      Reaches(out.objs, out.value, sem, Result(sem, fn, vals))
  }

  lemma OwningAt(run: Run, fs: Functions, m: Objs, n: nat, dying: set<Id>, owed: multiset<Value>, fn: nat, args: seq<Value>)
    requires Owning(run, fs) && CallReady(m, n, dying, owed, fs, fn, args)
    ensures var out := run(m, n, fn, args); CallDone(m, out.objs, out.bound, dying, owed, fs, out.value)
  {}

  lemma ComputesAt(run: Run, fs: Functions, sem: Sem, m: Objs, n: nat, dying: set<Id>, owed: multiset<Value>, fn: nat, args: seq<Value>, vals: seq<Val>)
    requires Computes(run, fs, sem) && CallReady(m, n, dying, owed, fs, fn, args) && MeansAll(m, args, vals)
    ensures var out := run(m, n, fn, args); Reaches(out.objs, out.value, sem, Result(sem, fn, vals))
  {}

  // ---- meanings across heap changes ----

  lemma FieldIsLive(m: Objs, n: nat, dying: set<Id>, owed: multiset<Value>, id: Id, v: Value)
    requires Ok(m, n, dying, owed) && id in m && id !in dying && v in m[id].fields && v.Ref?
    ensures v.id in m && v.id !in dying
  {
    HeldFrom(m, n, dying, id, v.id);
    assert OkAt(m, n, dying, owed, v.id);
  }

  lemma {:induction false} MeansSame(m: Objs, m': Objs, n': nat, dying: set<Id>, owed': multiset<Value>, v: Value, val: Val)
    requires Ok(m', n', dying, owed') && SameCells(m, m') && Means(m, v, val)
    requires v.Ref? ==> v.id in m' && v.id !in dying
    ensures Means(m', v, val)
    decreases val
  {
    hide Ok;
    if val.Con? || val.Fun? {
      forall i | 0 <= i < |val.args| ensures Means(m', m'[v.id].fields[i], val.args[i]) {
        var x := m'[v.id].fields[i];
        if x.Ref? { FieldIsLive(m', n', dying, owed', v.id, x); }
        MeansSame(m, m', n', dying, owed', x, val.args[i]);
      }
    }
  }

  lemma OwedMeansSame(m: Objs, m': Objs, n': nat, dying: set<Id>, owed': multiset<Value>, v: Value, val: Val)
    requires Ok(m', n', dying, owed') && SameCells(m, m') && Means(m, v, val) && owed'[v] > 0
    ensures Means(m', v, val)
  {
    hide Ok;
    if v.Ref? { OwedIsLive(m', n', dying, owed', v.id); }
    MeansSame(m, m', n', dying, owed', v, val);
  }

  lemma PreservesByCells(m: Objs, m': Objs, n': nat, dying: set<Id>, owed: multiset<Value>, owed': multiset<Value>)
    requires Ok(m', n', dying, owed') && owed <= owed'
    requires SameCells(m, m') && Untouched(m, m', dying) && Immortals(m, m')
    ensures Preserves(m, m', dying, owed)
  {
    hide Ok, Means;
    forall v, val | owed[v] > 0 && Means(m, v, val) ensures Means(m', v, val) {
      OwedMeansSame(m, m', n', dying, owed', v, val);
    }
    forall id | owed[Ref(id)] > 0 && id in m ensures KeepsCell(m, m', id) {
      OwedIsLive(m', n', dying, owed', id);
    }
  }

  lemma PreservesTrans(m: Objs, m': Objs, m'': Objs, dying: set<Id>, owed: multiset<Value>)
    requires Preserves(m, m', dying, owed) && Preserves(m', m'', dying, owed)
    ensures Preserves(m, m'', dying, owed)
  {
    hide Means;
  }

  lemma PreservesLess(m: Objs, m': Objs, dying: set<Id>, dying': set<Id>, owed: multiset<Value>, owed': multiset<Value>)
    requires Preserves(m, m', dying, owed) && owed' <= owed && dying' <= dying
    ensures Preserves(m, m', dying', owed')
  {
    hide Means;
  }

  lemma PlainKept(m: Objs, n: nat, m': Objs, dying: set<Id>, more: multiset<Value>, owed: multiset<Value>, vs: seq<Value>)
    requires Ok(m, n, dying, more + multiset(vs)) && Preserves(m, m', dying, owed + multiset(vs)) && Plain(m, vs)
    ensures Plain(m', vs)
  {
    hide Ok, Means;
    forall i | 0 <= i < |vs| ensures !Waiting(m', vs[i]) {
      assert vs[i] in multiset(vs);
      if vs[i].Ref? { OwedIsLive(m, n, dying, more + multiset(vs), vs[i].id); }
    }
  }

  // Counts only fall, and never from the maximum, and nothing is added.
  ghost predicate Falls(m: Objs, m': Objs) {
    && m'.Keys <= m.Keys && SameCells(m, m') && Immortals(m, m')
    && (forall id :: id in m' ==> m'[id].rc <= m[id].rc)
  }

  lemma KeptFalls(m: Objs, m': Objs)
    requires Kept(m, m')
    ensures Falls(m, m')
  {}

  lemma TidyFalls(m: Objs, m': Objs, dying: set<Id>, dying': set<Id>, fs: Functions)
    requires Tidy(m, dying, fs) && m'.Keys <= m.Keys && SameCells(m, m') && m'.Keys * dying <= dying'
    ensures Tidy(m', dying', fs)
  {
    forall id | id in m' && id !in dying' ensures TidyAt(m', fs, id) {
      assert TidyAt(m, fs, id);
      assert forall x :: Waiting(m', x) ==> Waiting(m, x);
    }
  }

  // A live value waits after as it did before.
  lemma WaitsSame(m: Objs, m': Objs, n': nat, dying: set<Id>, owed': multiset<Value>, v: Value)
    requires Ok(m', n', dying, owed') && owed'[v] > 0 && m'.Keys <= m.Keys && SameCells(m, m')
    ensures Waiting(m', v) == Waiting(m, v)
  {
    if v.Ref? { OwedIsLive(m', n', dying, owed', v.id); }
  }

  lemma ReturnableSame(m: Objs, m': Objs, n': nat, dying: set<Id>, owed': multiset<Value>, v: Value)
    requires Ok(m', n', dying, owed') && owed'[v] > 0 && Falls(m, m') && Returnable(m, v)
    ensures Returnable(m', v)
  {
    WaitsSame(m, m', n', dying, owed', v);
    if Waiting(m', v) {
      OwedIsLive(m', n', dying, owed', v.id);
      var fields := m[v.id].fields;
      forall i | 0 <= i < |fields| ensures Uncounted(m, fields[i]) ==> Uncounted(m', fields[i]) {
        if fields[i].Ref? { FieldIsLive(m', n', dying, owed', v.id, fields[i]); }
      }
    }
  }

  lemma ReachesSame(m: Objs, m': Objs, n': nat, dying: set<Id>, owed': multiset<Value>, v: Value, sem: Sem, goal: Val -> bool)
    requires Ok(m', n', dying, owed') && owed'[v] > 0 && Falls(m, m') && Reaches(m, v, sem, goal)
    ensures Reaches(m', v, sem, goal)
  {
    WaitsSame(m, m', n', dying, owed', v);
    hide Ok, Means;
    if Waiting(m, v) {
      OwedIsLive(m', n', dying, owed', v.id);
      var vals :| MeansAll(m, m[v.id].fields, vals) && forall val :: sem(m[v.id].kind.fn, vals, val) ==> goal(val);
      forall i | 0 <= i < |vals| ensures Means(m', m'[v.id].fields[i], vals[i]) {
        var x := m[v.id].fields[i];
        if x.Ref? { FieldIsLive(m', n', dying, owed', v.id, x); }
        MeansSame(m, m', n', dying, owed', x, vals[i]);
      }
      assert MeansAll(m', m'[v.id].fields, vals);
    } else {
      var val :| Means(m, v, val) && goal(val);
      OwedMeansSame(m, m', n', dying, owed', v, val);
    }
  }

  lemma ReachesMore(m: Objs, v: Value, sem: Sem, goal: Val -> bool, goal': Val -> bool)
    requires Reaches(m, v, sem, goal) && forall val :: goal(val) ==> goal'(val)
    ensures Reaches(m, v, sem, goal')
  {
    hide Means, MeansAll;
    if Waiting(m, v) {
      var vals :| MeansAll(m, m[v.id].fields, vals) && forall val :: sem(m[v.id].kind.fn, vals, val) ==> goal(val);
      assert forall val :: sem(m[v.id].kind.fn, vals, val) ==> goal'(val);
    }
  }

  // ---- consuming a closure's arguments ----

  lemma AddUncounted(m: Objs, n: nat, dying: set<Id>, owed: multiset<Value>, vs: seq<Value>)
    requires Ok(m, n, dying, owed)
    requires forall i :: 0 <= i < |vs| ==> Uncounted(m, vs[i]) && (vs[i].Ref? ==> vs[i].id !in dying)
    ensures Ok(m, n, dying, owed + multiset(vs))
  {
    var owed' := owed + multiset(vs);
    forall x: Id ensures OkAt(m, n, dying, owed', x) {
      assert OkAt(m, n, dying, owed, x);
      assert multiset(vs)[Ref(x)] > 0 ==> Ref(x) in vs;
    }
  }

  lemma DropUncounted(m: Objs, n: nat, dying: set<Id>, owed: multiset<Value>, vs: seq<Value>)
    requires Ok(m, n, dying, owed + multiset(vs))
    requires forall i :: 0 <= i < |vs| ==> Uncounted(m, vs[i])
    ensures Ok(m, n, dying, owed)
  {
    var owed' := owed + multiset(vs);
    forall x: Id ensures OkAt(m, n, dying, owed, x) {
      assert OkAt(m, n, dying, owed', x);
      assert multiset(vs)[Ref(x)] > 0 ==> Ref(x) in vs;
    }
  }

  // The closure's reference given up and its arguments taken without a dup.
  function Moved(m: Objs, c: Id): Objs
    requires c in m && m[c].rc > 0
  {
    if m[c].rc == 1 then m - {c} else Released(m, c)
  }

  lemma MovedKeeps(m: Objs, n: nat, dying: set<Id>, owed: multiset<Value>, c: Id)
    requires Ok(m, n, dying, owed + multiset{Ref(c)}) && c in m && m[c].rc > 0 && Movable(m, c)
    ensures Ok(Moved(m, c), n, dying, owed + multiset(m[c].fields))
  {
    OwedIsLive(m, n, dying, owed + multiset{Ref(c)}, c);
    var fields := m[c].fields;
    if m[c].rc == 1 {
      UnsharedDies(m, n, dying, owed, c);
      FreeKeeps(m, n, dying + {c}, owed + multiset(fields), c);
      assert dying + {c} - {c} == dying;
    } else {
      ReleaseKeeps(m, n, dying, owed, c);
      forall i | 0 <= i < |fields| ensures Uncounted(Released(m, c), fields[i]) && (fields[i].Ref? ==> fields[i].id !in dying) {
        if fields[i].Ref? { FieldIsLive(m, n, dying, owed + multiset{Ref(c)}, c, fields[i]); }
      }
      AddUncounted(Released(m, c), n, dying, owed, fields);
    }
  }

  // Consuming the arguments of a closure without a dup keeps the counts
  // exactly when the closure is unique or no argument is counted.
  lemma MovableExactly(m: Objs, n: nat, dying: set<Id>, owed: multiset<Value>, c: Id)
    requires Ok(m, n, dying, owed + multiset{Ref(c)}) && c in m && m[c].rc > 0
    ensures Ok(Moved(m, c), n, dying, owed + multiset(m[c].fields)) <==> Movable(m, c)
  {
    if Movable(m, c) {
      MovedKeeps(m, n, dying, owed, c);
    } else {
      var i :| 0 <= i < |m[c].fields| && !Uncounted(m, m[c].fields[i]);
      var x := m[c].fields[i].id;
      assert m[c].fields[i] in multiset(m[c].fields);
      OwedIsLive(m, n, dying, owed + multiset{Ref(c)}, c);
      FieldIsLive(m, n, dying, owed + multiset{Ref(c)}, c, m[c].fields[i]);
      var m' := Moved(m, c);
      assert OkAt(m, n, dying, owed + multiset{Ref(c)}, x);
      HeldExcept(m, dying, m', dying, n, c, x);
      assert !OkAt(m', n, dying, owed + multiset(m[c].fields), x);
    }
  }

  // ---- growing ----

  // A closure with more arguments.
  function Grown(m: Objs, c: Id, extra: seq<Value>): Objs
    requires c in m
  {
    m[c := m[c].(fields := m[c].fields + extra)]
  }

  lemma GrowKeeps(m: Objs, n: nat, dying: set<Id>, owed: multiset<Value>, c: Id, extra: seq<Value>)
    requires Ok(m, n, dying, owed + multiset{Ref(c)} + multiset(extra)) && c in m && m[c].rc == 1 && m[c].kind.Closure?
    ensures Ok(Grown(m, c, extra), n, dying, owed + multiset{Ref(c)})
    ensures Held(m, n, dying, c) == 0 && owed[Ref(c)] == 0 && Ref(c) !in extra && c !in dying
  {
    var before, after, m' := owed + multiset{Ref(c)} + multiset(extra), owed + multiset{Ref(c)}, Grown(m, c, extra);
    OwedIsLive(m, n, dying, before, c);
    assert OkAt(m, n, dying, before, c);
    assert Ref(c) in extra ==> multiset(extra)[Ref(c)] > 0;
    forall x: Id ensures OkAt(m', n, dying, after, x) {
      assert OkAt(m, n, dying, before, x);
      HeldExcept(m, dying, m', dying, n, c, x);
    }
  }

  // What does not refer to the closure does not see it grow.
  lemma {:induction false} MeansGrown(m: Objs, n: nat, dying: set<Id>, owed: multiset<Value>, c: Id, extra: seq<Value>, v: Value, val: Val)
    requires Ok(m, n, dying, owed) && c in m && Held(m, n, dying, c) == 0 && v != Ref(c)
    requires v.Ref? ==> v.id in m && v.id !in dying
    requires Means(m, v, val)
    ensures Means(Grown(m, c, extra), v, val)
    decreases val
  {
    hide Ok;
    if val.Con? || val.Fun? {
      forall i | 0 <= i < |val.args| ensures Means(Grown(m, c, extra), m[v.id].fields[i], val.args[i]) {
        var x := m[v.id].fields[i];
        if x.Ref? { FieldIsLive(m, n, dying, owed, v.id, x); }
        FieldIsNot(m, n, dying, owed, v.id, x, c);
        MeansGrown(m, n, dying, owed, c, extra, x, val.args[i]);
      }
    }
  }

  lemma FieldIsNot(m: Objs, n: nat, dying: set<Id>, owed: multiset<Value>, id: Id, x: Value, c: Id)
    requires Ok(m, n, dying, owed) && id in m && id !in dying && x in m[id].fields && Held(m, n, dying, c) == 0
    ensures x != Ref(c)
  {
    HeldFrom(m, n, dying, id, c);
  }

  lemma GrowPreserves(m: Objs, n: nat, dying: set<Id>, owed: multiset<Value>, c: Id, extra: seq<Value>)
    requires Ok(m, n, dying, owed + multiset{Ref(c)} + multiset(extra)) && c in m && m[c].rc == 1 && m[c].kind.Closure?
    ensures Preserves(m, Grown(m, c, extra), dying, owed)
  {
    var before, m' := owed + multiset{Ref(c)} + multiset(extra), Grown(m, c, extra);
    GrowKeeps(m, n, dying, owed, c, extra);
    hide Ok, Means;
    forall v, val | owed[v] > 0 && Means(m, v, val) ensures Means(m', v, val) {
      if v.Ref? { OwedIsLive(m, n, dying, before, v.id); }
      MeansGrown(m, n, dying, before, c, extra, v, val);
    }
    OkAllocated(m, n, dying, before);
  }

  lemma GrowMeans(m: Objs, n: nat, dying: set<Id>, owed: multiset<Value>, c: Id, extra: seq<Value>, f: Val, xs: seq<Val>)
    requires Ok(m, n, dying, owed + multiset{Ref(c)} + multiset(extra)) && c in m && m[c].rc == 1
    requires f.Fun? && Means(m, Ref(c), f) && MeansAll(m, extra, xs)
    ensures Means(Grown(m, c, extra), Ref(c), Fun(f.fn, f.arity, f.args + xs))
  {
    var before, m' := owed + multiset{Ref(c)} + multiset(extra), Grown(m, c, extra);
    HoldsFun(m, Ref(c), f);
    GrowKeeps(m, n, dying, owed, c, extra);
    hide Ok;
    var all, vals := m[c].fields + extra, f.args + xs;
    forall i | 0 <= i < |all| ensures Means(m', all[i], vals[i]) {
      hide Means, Grown;
      var x := all[i];
      if i < |f.args| {
        assert x in m[c].fields;
        if x.Ref? { FieldIsLive(m, n, dying, before, c, x); }
        FieldIsNot(m, n, dying, before, c, x, c);
      } else {
        assert x in extra && multiset(extra)[x] > 0;
        if x.Ref? { OwedIsLive(m, n, dying, before, x.id); }
      }
      MeansGrown(m, n, dying, before, c, extra, x, vals[i]);
    }
  }

  lemma GrowTidy(m: Objs, n: nat, dying: set<Id>, owed: multiset<Value>, fs: Functions, c: Id, extra: seq<Value>)
    requires Ok(m, n, dying, owed + multiset{Ref(c)} + multiset(extra)) && c in m && m[c].rc == 1 && m[c].kind.Closure?
    requires Tidy(m, dying, fs) && Plain(m, extra) && |m[c].fields| + |extra| <= m[c].kind.arity
    ensures Tidy(Grown(m, c, extra), dying, fs)
  {
    var before, m' := owed + multiset{Ref(c)} + multiset(extra), Grown(m, c, extra);
    GrowKeeps(m, n, dying, owed, c, extra);
    hide Ok;
    forall id | id in m' && id !in dying ensures TidyAt(m', fs, id) {
      assert TidyAt(m, fs, id);
      forall x | x in m'[id].fields && !m'[id].kind.Lazy? ensures !Waiting(m', x) {
        if x in m[id].fields { FieldIsNot(m, n, dying, before, id, x, c); }
      }
    }
  }

  // dup of each value, all of them fields of a live object.
  method DupFields(h: Heap, c: Id, ghost dying: set<Id>, ghost owed: multiset<Value>) returns (fields: seq<Value>)
    requires h.Counts(dying, owed) && c in h.objs && c !in dying
    modifies h
    ensures fields == old(h.objs[c].fields) && h.Counts(dying, owed + multiset(fields))
    ensures h.bound == old(h.bound) && h.objs.Keys == old(h.objs).Keys && SameCells(old(h.objs), h.objs)
    ensures Untouched(old(h.objs), h.objs, dying) && Immortals(old(h.objs), h.objs)
  {
    hide Ok;
    fields := h.objs[c].fields;
    OkAllocated(h.objs, h.bound, dying, owed);
    assert owed + multiset(fields[..0]) == owed;
    for i := 0 to |fields|
      invariant h.Counts(dying, owed + multiset(fields[..i]))
      invariant h.bound == old(h.bound) && h.objs.Keys == old(h.objs).Keys && SameCells(old(h.objs), h.objs)
      invariant Untouched(old(h.objs), h.objs, dying) && Immortals(old(h.objs), h.objs)
    {
      if fields[i].Ref? { FieldIsLive(h.objs, h.bound, dying, owed + multiset(fields[..i]), c, fields[i]); }
      h.Dup(fields[i], dying, owed + multiset(fields[..i]));
      assert fields[..i + 1] == fields[..i] + [fields[i]];
      assert owed + multiset(fields[..i + 1]) == owed + multiset(fields[..i]) + multiset{fields[i]};
    }
    assert fields[..|fields|] == fields;
  }

  // c is a closure with room for n more arguments.
  predicate Takes(m: Objs, c: Value, n: nat) {
    c.Ref? && c.id in m && m[c.id].kind.Closure? && |m[c.id].fields| + n <= m[c.id].kind.arity
  }

  // r is a closure of its own: c with more arguments.
  predicate Extended(m: Objs, m': Objs, c: Value, extra: seq<Value>, r: Value)
    requires c.Ref? && c.id in m
  {
    r.Ref? && r.id in m' && m'[r.id] == Obj(1, m[c.id].kind, m[c.id].fields + extra)
  }

  // tailcallApplyClosure, and the under-applied case of applyClosureN: more
  // arguments in place in a unique closure, in a copy of a shared one.
  method Extend(h: Heap, c: Value, extra: seq<Value>, ghost fs: Functions, ghost f: Val, ghost xs: seq<Val>, ghost dying: set<Id>, ghost owed: multiset<Value>)
    returns (r: Value)
    requires h.Counts(dying, owed + multiset{c} + multiset(extra)) && Tidy(h.objs, dying, fs)
    requires Takes(h.objs, c, |extra|) && Plain(h.objs, extra)
    modifies h
    ensures CallDone(old(h.objs), h.objs, h.bound, dying, owed, fs, r)
    ensures Extended(old(h.objs), h.objs, c, extra, r)
    ensures f.Fun? && Means(old(h.objs), c, f) && MeansAll(old(h.objs), extra, xs) ==>
              Means(h.objs, r, Fun(f.fn, f.arity, f.args + xs))
  {
    hide Ok, Means, MeansAll, Preserves, Kept, Untouched, Tidy, Movable;
    if h.objs[c.id].rc == 1 {
      GrowKeeps(h.objs, h.bound, dying, owed, c.id, extra);
      GrowPreserves(h.objs, h.bound, dying, owed, c.id, extra);
      GrowTidy(h.objs, h.bound, dying, owed, fs, c.id, extra);
      if f.Fun? && Means(h.objs, c, f) && MeansAll(h.objs, extra, xs) {
        GrowMeans(h.objs, h.bound, dying, owed, c.id, extra, f, xs);
      }
      h.objs := Grown(h.objs, c.id, extra);
      UniqueIsMovable(h.objs, c.id);
      return c;
    }
    r := ExtendCopy(h, c, extra, fs, f, xs, dying, owed);
  }

  lemma UniqueIsMovable(m: Objs, c: Id)
    requires c in m && m[c].rc == 1
    ensures Movable(m, c)
  {}

  // The copy: each argument shared, the new ones taken over, c given up.
  method ExtendCopy(h: Heap, c: Value, extra: seq<Value>, ghost fs: Functions, ghost f: Val, ghost xs: seq<Val>, ghost dying: set<Id>, ghost owed: multiset<Value>)
    returns (r: Value)
    requires h.Counts(dying, owed + multiset{c} + multiset(extra)) && Tidy(h.objs, dying, fs)
    requires Takes(h.objs, c, |extra|) && Plain(h.objs, extra)
    modifies h
    ensures CallDone(old(h.objs), h.objs, h.bound, dying, owed, fs, r)
    ensures Extended(old(h.objs), h.objs, c, extra, r)
    ensures f.Fun? && Means(old(h.objs), c, f) && MeansAll(old(h.objs), extra, xs) ==>
              Means(h.objs, r, Fun(f.fn, f.arity, f.args + xs))
  {
    hide Ok, Means, MeansAll, Preserves, Kept, Tidy, CallDone, Extended;
    ghost var all := owed + multiset{c} + multiset(extra);
    OwedIsLive(h.objs, h.bound, dying, all, c.id);
    var fields := DupFields(h, c.id, dying, all);
    assert all + multiset(fields) == owed + multiset{c} + multiset(fields + extra);
    ghost var m1, n1 := h.objs, h.bound;
    var nc := h.Alloc(h.objs[c.id].kind, fields + extra, dying, owed + multiset{c});
    assert owed + multiset{c} + multiset{Ref(nc)} == owed + multiset{Ref(nc)} + multiset{c};
    ghost var m2 := h.objs;
    h.Drop(c, dying, owed + multiset{Ref(nc)});
    r := Ref(nc);
    CopyDone(old(h.objs), m1, n1, m2, h.objs, h.bound, dying, owed, c, fs, extra);
    if f.Fun? && Means(old(h.objs), c, f) && MeansAll(old(h.objs), extra, xs) {
      CopyMeans(old(h.objs), h.objs, h.bound, dying, owed, c.id, nc, f, xs, extra);
    }
  }

  // What a copy goes through: the arguments dup'd, the copy made, c dropped.
  lemma CopyDone(m: Objs, m1: Objs, n1: nat, m2: Objs, m3: Objs, n: nat, dying: set<Id>, owed: multiset<Value>, c: Value, fs: Functions, extra: seq<Value>)
    requires Takes(m, c, |extra|) && c.id !in dying && Plain(m, extra) && Tidy(m, dying, fs)
    requires SameCells(m, m1) && m1.Keys == m.Keys && Untouched(m, m1, dying) && Immortals(m, m1)
    requires Ok(m1, n1, dying, owed + multiset{c} + multiset(m[c.id].fields + extra))
    requires n1 !in m1 && m2 == m1[n1 := Obj(1, m[c.id].kind, m[c.id].fields + extra)]
    requires Kept(m2, m3) && Untouched(m2, m3, dying) && Ok(m3, n, dying, owed + multiset{Ref(n1)})
    ensures CallDone(m, m3, n, dying, owed, fs, Ref(n1)) && Extended(m, m3, c, extra, Ref(n1))
    ensures SameCells(m, m3) && n1 in m3 && m3[n1] == Obj(1, m[c.id].kind, m[c.id].fields + extra)
  {
    hide Ok, Preserves, Tidy;
    var all := m[c.id].fields + extra;
    OwedIsLive(m3, n, dying, owed + multiset{Ref(n1)}, n1);
    PreservesByCells(m, m3, n, dying, owed, owed + multiset{Ref(n1)});
    TidyFalls(m, m1, dying, dying, fs);
    TidyIs(m, dying, fs, c.id);
    AllPlain(m1, m[c.id].fields, extra);
    AllocTidy(m1, n1, dying, owed + multiset{c}, fs, m[c.id].kind, all);
    TidyFalls(m2, m3, dying, dying, fs);
  }

  lemma TidyIs(m: Objs, dying: set<Id>, fs: Functions, id: Id)
    requires Tidy(m, dying, fs) && id in m && id !in dying
    ensures TidyAt(m, fs, id)
  {}

  lemma AllPlain(m: Objs, fields: seq<Value>, extra: seq<Value>)
    requires (forall x :: x in fields ==> !Waiting(m, x)) && Plain(m, extra)
    ensures Plain(m, fields + extra)
  {}

  // A new object keeps the heap tidy.
  lemma AllocTidy(m: Objs, n: nat, dying: set<Id>, owed: multiset<Value>, fs: Functions, kind: Kind, fields: seq<Value>)
    requires Ok(m, n, dying, owed + multiset(fields)) && n !in m && Tidy(m, dying, fs) && Plain(m, fields)
    requires kind.Closure? ==> kind.fn in fs && fs[kind.fn] == kind.arity && |fields| <= kind.arity
    ensures Tidy(m[n := Obj(1, kind, fields)], dying, fs)
  {
    hide Ok;
    var m' := m[n := Obj(1, kind, fields)];
    forall id | id in m' && id !in dying ensures TidyAt(m', fs, id) {
      if id != n { TidyIs(m, dying, fs, id); }
      forall x | x in m'[id].fields && !m'[id].kind.Lazy? ensures !Waiting(m', x) {
        if id == n {
          assert x in multiset(fields);
          if x.Ref? { OwedIsLive(m, n, dying, owed + multiset(fields), x.id); }
        } else if x.Ref? {
          FieldIsLive(m, n, dying, owed + multiset(fields), id, x);
        }
      }
    }
  }

  lemma CopyMeans(m: Objs, m3: Objs, n: nat, dying: set<Id>, owed: multiset<Value>, c: Id, nc: Id, f: Val, xs: seq<Val>, extra: seq<Value>)
    requires SameCells(m, m3) && Ok(m3, n, dying, owed + multiset{Ref(nc)}) && c in m && nc in m3
    requires m3[nc] == Obj(1, m[c].kind, m[c].fields + extra)
    requires f.Fun? && Means(m, Ref(c), f) && MeansAll(m, extra, xs)
    ensures Means(m3, Ref(nc), Fun(f.fn, f.arity, f.args + xs))
  {
    HoldsFun(m, Ref(c), f);
    hide Ok;
    OwedIsLive(m3, n, dying, owed + multiset{Ref(nc)}, nc);
    var all, vals := m[c].fields + extra, f.args + xs;
    forall i | 0 <= i < |all| ensures Means(m3, all[i], vals[i]) {
      hide Means;
      if all[i].Ref? { FieldIsLive(m3, n, dying, owed + multiset{Ref(nc)}, nc, all[i]); }
      MeansSame(m, m3, n, dying, owed + multiset{Ref(nc)}, all[i], vals[i]);
    }
  }

  lemma HoldsFun(m: Objs, v: Value, f: Val)
    requires f.Fun? && Means(m, v, f)
    ensures Holds(m, v, Closure(f.fn, f.arity), |f.args|) && MeansAll(m, m[v.id].fields, f.args)
  {}

  // ---- running ----

  lemma MovedIs(m: Objs, c: Id)
    requires c in m && m[c].rc > 0
    ensures Moved(m, c) == if m[c].rc == 1 then Released(m, c) - {c} else Released(m, c)
  {}

  // A closure whose arguments, with the extra ones, make a call.
  ghost predicate Callable(m: Objs, dying: set<Id>, fs: Functions, c: Id, extra: seq<Value>) {
    && c in m && m[c].rc > 0 && m[c].kind.Closure? && Tidy(m, dying, fs)
    && |m[c].fields + extra| == m[c].kind.arity && Plain(m, extra)
  }

  lemma CallIsReady(m: Objs, n: nat, d: set<Id>, owed: multiset<Value>, dying: set<Id>, fs: Functions, c: Id, extra: seq<Value>)
    requires Callable(m, dying, fs, c, extra) && dying <= d && c !in dying
    requires Ok(m, n, d, owed + multiset(m[c].fields + extra))
    ensures CallReady(m, n, d, owed, fs, m[c].kind.fn, m[c].fields + extra)
  {
    hide Ok;
    TidyIs(m, dying, fs, c);
    TidyFalls(m, m, dying, d, fs);
    AllPlain(m, m[c].fields, extra);
  }

  // What a dispatch promises: the counts, whatever the functions compute, and
  // the value if they compute what sem allows.
  ghost predicate Dispatched(m: Objs, m': Objs, n': nat, dying: set<Id>, owed: multiset<Value>, run: Run, fs: Functions, sem: Sem,
                             fn: nat, args: seq<Value>, vals: seq<Val>, v: Value) {
    && CallDone(m, m', n', dying, owed, fs, v)
    && (Computes(run, fs, sem) && MeansAll(m, args, vals) ==> Reaches(m', v, sem, Result(sem, fn, vals)))
  }

  lemma Called(run: Run, fs: Functions, sem: Sem, m: Objs, n: nat, dying: set<Id>, owed: multiset<Value>, fn: nat, args: seq<Value>, vals: seq<Val>)
    requires Owning(run, fs) && CallReady(m, n, dying, owed, fs, fn, args)
    ensures var out := run(m, n, fn, args); Dispatched(m, out.objs, out.bound, dying, owed, run, fs, sem, fn, args, vals, out.value)
  {
    hide CallReady, CallDone, Reaches, Result, MeansAll;
    OwningAt(run, fs, m, n, dying, owed, fn, args);
    if Computes(run, fs, sem) && MeansAll(m, args, vals) {
      ComputesAt(run, fs, sem, m, n, dying, owed, fn, args, vals);
    }
  }

  // Giving up the closure after a call disturbs nothing.
  lemma AfterCall(m: Objs, m1: Objs, m2: Objs, n: nat, d: set<Id>, dying: set<Id>, more: multiset<Value>, owed: multiset<Value>,
                  run: Run, fs: Functions, sem: Sem, fn: nat, args: seq<Value>, vals: seq<Val>, v: Value)
    requires Dispatched(m, m1, n, d, more, run, fs, sem, fn, args, vals, v) && dying <= d && owed <= more
    requires Falls(m1, m2) && Untouched(m1, m2, dying) && m2.Keys * d <= dying && Ok(m2, n, dying, owed + multiset{v})
    ensures Dispatched(m, m2, n, dying, owed, run, fs, sem, fn, args, vals, v)
  {
    hide Preserves, Untouched, Ok, Tidy, Returnable, Reaches, Result, MeansAll, Computes;
    PreservesLess(m, m1, d, dying, more, owed);
    PreservesByCells(m1, m2, n, dying, owed, owed + multiset{v});
    PreservesTrans(m, m1, m2, dying, owed);
    TidyFalls(m1, m2, d, dying, fs);
    ReturnableSame(m1, m2, n, dying, owed + multiset{v}, v);
    if Computes(run, fs, sem) && MeansAll(m, args, vals) {
      ReachesSame(m1, m2, n, dying, owed + multiset{v}, v, sem, Result(sem, fn, vals));
    }
  }

  lemma DoneParts(m: Objs, m': Objs, n': nat, dying: set<Id>, owed: multiset<Value>, run: Run, fs: Functions, sem: Sem,
                  fn: nat, args: seq<Value>, vals: seq<Val>, v: Value)
    requires Dispatched(m, m', n', dying, owed, run, fs, sem, fn, args, vals, v)
    ensures Ok(m', n', dying, owed + multiset{v}) && Preserves(m, m', dying, owed) && dying <= m'.Keys
  {}

  // A unique closure is out of reach of the call it starts.
  lemma UniqueCall(run: Run, fs: Functions, sem: Sem, m: Objs, n: nat, dying: set<Id>, owed: multiset<Value>, c: Id, extra: seq<Value>, vals: seq<Val>)
    requires Owning(run, fs) && Ok(m, n, dying, owed + multiset{Ref(c)} + multiset(extra))
    requires Callable(m, dying, fs, c, extra) && m[c].rc == 1
    ensures var (fn, args) := (m[c].kind.fn, m[c].fields + extra);
            var out := run(m, n, fn, args);
            && c in out.objs && out.objs[c].rc == 1
            && Dispatched(m, Moved(out.objs, c), out.bound, dying, owed, run, fs, sem, fn, args, vals, out.value)
  {
    var fn, args, d := m[c].kind.fn, m[c].fields + extra, dying + {c};
    hide *;
    assert owed + multiset{Ref(c)} + multiset(extra) == owed + multiset(extra) + multiset{Ref(c)};
    UnsharedDies(m, n, dying, owed + multiset(extra), c);
    assert owed + multiset(extra) + multiset(m[c].fields) == owed + multiset(args);
    CallIsReady(m, n, d, owed, dying, fs, c, extra);
    Called(run, fs, sem, m, n, d, owed, fn, args, vals);
    var out := run(m, n, fn, args);
    DoneParts(m, out.objs, out.bound, d, owed, run, fs, sem, fn, args, vals, out.value);
    DyingUntouched(m, out.objs, d, owed, c);
    FreeKeeps(out.objs, out.bound, d, owed + multiset{out.value}, c);
    assert d - {c} == dying;
    var m' := out.objs - {c};
    assert Moved(out.objs, c) == m' by { MovedUnique(out.objs, c); }
    FreeFalls(out.objs, c, d);
    assert m'.Keys * d <= dying;
    AfterCall(m, out.objs, m', out.bound, d, dying, owed, owed, run, fs, sem, fn, args, vals, out.value);
  }

  // A shared or immortal closure stays owed during the call.
  lemma SharedCall(run: Run, fs: Functions, sem: Sem, m: Objs, n: nat, dying: set<Id>, owed: multiset<Value>, c: Id, extra: seq<Value>, vals: seq<Val>)
    requires Owning(run, fs) && Ok(m, n, dying, owed + multiset{Ref(c)} + multiset(extra))
    requires Callable(m, dying, fs, c, extra) && m[c].rc > 1 && AllUncounted(m, m[c].fields)
    ensures var (fn, args) := (m[c].kind.fn, m[c].fields + extra);
            var out := run(m, n, fn, args);
            && c in out.objs && out.objs[c].rc > 0
            && Dispatched(m, Moved(out.objs, c), out.bound, dying, owed, run, fs, sem, fn, args, vals, out.value)
  {
    var fn, args, more := m[c].kind.fn, m[c].fields + extra, owed + multiset{Ref(c)};
    hide *;
    OwedIsLive(m, n, dying, more + multiset(extra), c);
    SharedReady(m, n, dying, more + multiset(extra), c);
    assert more + multiset(extra) + multiset(m[c].fields) == more + multiset(args);
    CallIsReady(m, n, dying, more, dying, fs, c, extra);
    Called(run, fs, sem, m, n, dying, more, fn, args, vals);
    var out := run(m, n, fn, args);
    DoneParts(m, out.objs, out.bound, dying, more, run, fs, sem, fn, args, vals, out.value);
    assert more + multiset{out.value} == owed + multiset{out.value} + multiset{Ref(c)};
    OwedIsLive(out.objs, out.bound, dying, owed + multiset{out.value} + multiset{Ref(c)}, c);
    ClosureKept(m, out.objs, dying, more, c);
    MovedDrops(out.objs, out.bound, dying, owed + multiset{out.value}, c);
    AfterCall(m, out.objs, Moved(out.objs, c), out.bound, dying, dying, more, owed, run, fs, sem, fn, args, vals, out.value);
  }

  predicate AllUncounted(m: Objs, vs: seq<Value>) { forall i :: 0 <= i < |vs| ==> Uncounted(m, vs[i]) }

  lemma SharedReady(m: Objs, n: nat, dying: set<Id>, owed: multiset<Value>, c: Id)
    requires Ok(m, n, dying, owed) && owed[Ref(c)] > 0 && c in m && AllUncounted(m, m[c].fields)
    ensures Ok(m, n, dying, owed + multiset(m[c].fields))
  {
    OwedIsLive(m, n, dying, owed, c);
    hide Ok;
    forall x | x in m[c].fields && x.Ref? ensures x.id !in dying {
      FieldIsLive(m, n, dying, owed, c, x);
    }
    AddUncounted(m, n, dying, owed, m[c].fields);
  }

  lemma ClosureKept(m: Objs, m': Objs, dying: set<Id>, owed: multiset<Value>, c: Id)
    requires Preserves(m, m', dying, owed) && owed[Ref(c)] > 0 && c in m && m[c].kind.Closure? && AllUncounted(m, m[c].fields)
    ensures c in m' && m'[c].fields == m[c].fields && AllUncounted(m', m'[c].fields)
  {
    hide Means;
  }

  lemma MovedDrops(m: Objs, n: nat, dying: set<Id>, owed: multiset<Value>, c: Id)
    requires Ok(m, n, dying, owed + multiset{Ref(c)}) && c in m && m[c].rc > 0 && AllUncounted(m, m[c].fields)
    ensures Ok(Moved(m, c), n, dying, owed)
    ensures Falls(m, Moved(m, c)) && Untouched(m, Moved(m, c), dying)
  {
    MovedKeeps(m, n, dying, owed, c);
    DropUncounted(Moved(m, c), n, dying, owed, m[c].fields);
    OwedIsLive(m, n, dying, owed + multiset{Ref(c)}, c);
    CountWithinMax(m, n, dying, owed + multiset{Ref(c)}, c);
    OkAllocated(m, n, dying, owed + multiset{Ref(c)});
  }

  lemma MovedUnique(m: Objs, c: Id)
    requires c in m && m[c].rc == 1
    ensures Moved(m, c) == m - {c}
  {}

  lemma FreeFalls(m: Objs, c: Id, d: set<Id>)
    requires c in m && m[c].rc == 1 && d <= m.Keys
    ensures Falls(m, m - {c}) && Untouched(m, m - {c}, d - {c})
  {}

  lemma DyingUntouched(m: Objs, m': Objs, dying: set<Id>, owed: multiset<Value>, c: Id)
    requires Preserves(m, m', dying, owed) && c in dying
    ensures c in m && c in m' && m'[c] == m[c]
  {}

  lemma MovedCall(run: Run, fs: Functions, sem: Sem, m: Objs, n: nat, dying: set<Id>, owed: multiset<Value>, c: Id, extra: seq<Value>, vals: seq<Val>)
    requires Owning(run, fs) && Ok(m, n, dying, owed + multiset{Ref(c)} + multiset(extra))
    requires Callable(m, dying, fs, c, extra) && Movable(m, c)
    ensures var (fn, args) := (m[c].kind.fn, m[c].fields + extra);
            var out := run(m, n, fn, args);
            && c in out.objs && out.objs[c].rc > 0
            && Dispatched(m, Moved(out.objs, c), out.bound, dying, owed, run, fs, sem, fn, args, vals, out.value)
  {
    hide Ok, Owning, Tidy, Plain, Dispatched, Moved;
    if m[c].rc == 1 {
      UniqueCall(run, fs, sem, m, n, dying, owed, c, extra, vals);
    } else {
      assert AllUncounted(m, m[c].fields);
      SharedCall(run, fs, sem, m, n, dying, owed, c, extra, vals);
    }
  }

  // The closure's arguments, and extra ones, passed on without a dup; then the
  // reference to the closure goes, and with the last one its memory.
  method DispatchMoved(h: Heap, run: Run, c: Id, extra: seq<Value>, ghost fs: Functions, ghost sem: Sem, ghost vals: seq<Val>, ghost dying: set<Id>, ghost owed: multiset<Value>)
    returns (v: Value)
    requires Owning(run, fs) && h.Counts(dying, owed + multiset{Ref(c)} + multiset(extra))
    requires Callable(h.objs, dying, fs, c, extra) && Movable(h.objs, c)
    modifies h
    ensures var o := old(h.objs[c]);
            Dispatched(old(h.objs), h.objs, h.bound, dying, owed, run, fs, sem, o.kind.fn, o.fields + extra, vals, v)
  {
    hide Ok, Owning, Tidy, Plain, Dispatched, Moved, Released, Movable;
    var o := h.objs[c];
    var out := run(h.objs, h.bound, o.kind.fn, o.fields + extra);
    MovedCall(run, fs, sem, h.objs, h.bound, dying, owed, c, extra, vals);
    MovedIs(out.objs, c);
    h.objs, h.bound := out.objs, out.bound;
    var last := h.Release(c);
    if last {
      h.objs := h.objs - {c};
    }
    v := out.value;
  }

  // A call on copies of the closure's arguments, which keeps its own until it
  // is given up.
  method DispatchCopied(h: Heap, run: Run, c: Id, extra: seq<Value>, ghost fs: Functions, ghost sem: Sem, ghost vals: seq<Val>, ghost dying: set<Id>, ghost owed: multiset<Value>)
    returns (v: Value)
    requires Owning(run, fs) && h.Counts(dying, owed + multiset{Ref(c)} + multiset(extra))
    requires Callable(h.objs, dying, fs, c, extra)
    modifies h
    ensures var o := old(h.objs[c]);
            Dispatched(old(h.objs), h.objs, h.bound, dying, owed, run, fs, sem, o.kind.fn, o.fields + extra, vals, v)
  {
    hide Ok, Owning, Tidy, Dispatched, Kept, Untouched, Preserves, CallReady;
    ghost var more, m, n := owed + multiset{Ref(c)}, h.objs, h.bound;
    var fn := h.objs[c].kind.fn;
    OwedIsLive(h.objs, h.bound, dying, more + multiset(extra), c);
    var fields := DupFields(h, c, dying, more + multiset(extra));
    var args := fields + extra;
    ghost var m1, n1 := h.objs, h.bound;
    assert more + multiset(extra) + multiset(fields) == more + multiset(args);
    CopiesReady(m, m1, n1, dying, more, fs, c, extra);
    Called(run, fs, sem, m1, n1, dying, more, fn, args, vals);
    var out := run(h.objs, h.bound, fn, args);
    DoneParts(m1, out.objs, out.bound, dying, more, run, fs, sem, fn, args, vals, out.value);
    AfterCopies(m, m1, n1, out.objs, out.bound, dying, more, run, fs, sem, fn, args, vals, out.value);
    h.objs, h.bound := out.objs, out.bound;
    v := out.value;
    assert more + multiset{v} == owed + multiset{v} + multiset{Ref(c)};
    h.Drop(Ref(c), dying, owed + multiset{v});
    KeptFalls(out.objs, h.objs);
    assert h.objs.Keys * dying <= dying;
    AfterCall(m, out.objs, h.objs, h.bound, dying, dying, more, owed, run, fs, sem, fn, args, vals, v);
  }

  lemma CopiesReady(m: Objs, m1: Objs, n1: nat, dying: set<Id>, more: multiset<Value>, fs: Functions, c: Id, extra: seq<Value>)
    requires SameCells(m, m1) && m1.Keys == m.Keys && Callable(m, dying, fs, c, extra) && c !in dying
    requires Ok(m1, n1, dying, more + multiset(m[c].fields + extra))
    ensures CallReady(m1, n1, dying, more, fs, m[c].kind.fn, m[c].fields + extra)
  {
    hide Ok, Tidy;
    TidyIs(m, dying, fs, c);
    TidyFalls(m, m1, dying, dying, fs);
    AllPlain(m, m[c].fields, extra);
  }

  // The dups before a call leave every meaning as it was.
  lemma AfterCopies(m: Objs, m1: Objs, n1: nat, m2: Objs, n2: nat, dying: set<Id>, more: multiset<Value>,
                    run: Run, fs: Functions, sem: Sem, fn: nat, args: seq<Value>, vals: seq<Val>, v: Value)
    requires SameCells(m, m1) && Untouched(m, m1, dying) && Immortals(m, m1) && Ok(m1, n1, dying, more + multiset(args))
    requires Dispatched(m1, m2, n2, dying, more, run, fs, sem, fn, args, vals, v)
    ensures Dispatched(m, m2, n2, dying, more, run, fs, sem, fn, args, vals, v)
  {
    hide Ok, Preserves, Tidy, Returnable, Reaches, Result, MeansAll, Computes, Untouched;
    PreservesByCells(m, m1, n1, dying, more, more + multiset(args));
    PreservesTrans(m, m1, m2, dying, more);
    if Computes(run, fs, sem) && MeansAll(m, args, vals) {
      ArgsKeepMeaning(m, m1, n1, dying, more, args, vals);
    }
  }

  lemma ArgsKeepMeaning(m: Objs, m': Objs, n': nat, dying: set<Id>, owed: multiset<Value>, args: seq<Value>, vals: seq<Val>)
    requires SameCells(m, m') && Ok(m', n', dying, owed + multiset(args)) && MeansAll(m, args, vals)
    ensures MeansAll(m', args, vals)
  {
    hide Ok, Means;
    forall i | 0 <= i < |args| ensures Means(m', args[i], vals[i]) {
      assert args[i] in multiset(args);
      OwedMeansSame(m, m', n', dying, owed + multiset(args), args[i], vals[i]);
    }
  }

  // Runs closures until a value comes out, for at most fuel of them.
  method Trampoline(h: Heap, run: Run, start: Value, fuel: nat, ghost fs: Functions, ghost sem: Sem, ghost goal: Val -> bool, ghost dying: set<Id>, ghost owed: multiset<Value>)
    returns (it: Value, bounces: nat)
    requires Owning(run, fs) && h.Counts(dying, owed + multiset{start}) && Tidy(h.objs, dying, fs) && Returnable(h.objs, start)
    modifies h
    ensures CallDone(old(h.objs), h.objs, h.bound, dying, owed, fs, it)
    ensures bounces <= fuel && (Waiting(h.objs, it) ==> bounces == fuel)
    ensures Computes(run, fs, sem) && Reaches(old(h.objs), start, sem, goal) ==> Reaches(h.objs, it, sem, goal)
  {
    hide Ok, Owning, Computes, Tidy, Preserves, Reaches, Untouched, Movable, Dispatched;
    it, bounces := start, 0;
    PreservesRefl(h.objs, h.bound, dying, owed, it);
    OwedValueIsLive(h.objs, h.bound, dying, owed, it);
    while bounces < fuel && Waiting(h.objs, it)
      invariant bounces <= fuel
      invariant CallDone(old(h.objs), h.objs, h.bound, dying, owed, fs, it)
      invariant it.Ref? ==> it.id in h.objs && it.id !in dying && h.objs[it.id].rc > 0
      invariant Computes(run, fs, sem) && Reaches(old(h.objs), start, sem, goal) ==> Reaches(h.objs, it, sem, goal)
      decreases fuel - bounces
    {
      ghost var m, was := h.objs, it;
      ghost var vals := ThunkValues(m, it, sem, goal);
      WaitingIsCallable(m, dying, fs, it);
      var fields := h.objs[it.id].fields;
      assert fields + [] == fields && owed + multiset{it} + multiset([]) == owed + multiset{it};
      it := DispatchMoved(h, run, it.id, [], fs, sem, vals, dying, owed);
      Bounced(old(h.objs), m, h.objs, h.bound, dying, owed, run, fs, sem, goal, was, vals, it);
      OwedValueIsLive(h.objs, h.bound, dying, owed, it);
      bounces := bounces + 1;
    }
  }

  lemma OwedValueIsLive(m: Objs, n: nat, dying: set<Id>, owed: multiset<Value>, v: Value)
    requires Ok(m, n, dying, owed + multiset{v})
    ensures v.Ref? ==> v.id in m && v.id !in dying && m[v.id].rc > 0
  {
    if v.Ref? { OwedIsLive(m, n, dying, owed + multiset{v}, v.id); }
  }

  lemma PreservesRefl(m: Objs, n: nat, dying: set<Id>, owed: multiset<Value>, v: Value)
    requires Ok(m, n, dying, owed + multiset{v})
    ensures Preserves(m, m, dying, owed)
  {
    hide Means;
    OkAllocated(m, n, dying, owed + multiset{v});
    hide Ok;
  }

  // The meanings of a waiting closure's arguments, if it leads to the goal.
  lemma ThunkValues(m: Objs, v: Value, sem: Sem, goal: Val -> bool) returns (vals: seq<Val>)
    requires Waiting(m, v)
    ensures Reaches(m, v, sem, goal) ==>
              MeansAll(m, m[v.id].fields, vals) && forall val :: sem(m[v.id].kind.fn, vals, val) ==> goal(val)
  {
    vals := [];
    if Reaches(m, v, sem, goal) {
      vals :| MeansAll(m, m[v.id].fields, vals) && forall val :: sem(m[v.id].kind.fn, vals, val) ==> goal(val);
    }
  }

  lemma WaitingIsCallable(m: Objs, dying: set<Id>, fs: Functions, v: Value)
    requires Waiting(m, v) && v.id !in dying && m[v.id].rc > 0 && Tidy(m, dying, fs)
    ensures Callable(m, dying, fs, v.id, [])
  {
    TidyIs(m, dying, fs, v.id);
    assert m[v.id].fields + [] == m[v.id].fields;
  }

  // One closure run, after the ones before.
  lemma Bounced(m0: Objs, m: Objs, m': Objs, n': nat, dying: set<Id>, owed: multiset<Value>, run: Run, fs: Functions, sem: Sem,
                goal: Val -> bool, was: Value, vals: seq<Val>, v: Value)
    requires Preserves(m0, m, dying, owed) && Waiting(m, was)
    requires var o := m[was.id]; Dispatched(m, m', n', dying, owed, run, fs, sem, o.kind.fn, o.fields + [], vals, v)
    requires Reaches(m, was, sem, goal) ==>
               MeansAll(m, m[was.id].fields, vals) && forall val :: sem(m[was.id].kind.fn, vals, val) ==> goal(val)
    ensures CallDone(m0, m', n', dying, owed, fs, v)
    ensures Computes(run, fs, sem) && Reaches(m, was, sem, goal) ==> Reaches(m', v, sem, goal)
  {
    hide Preserves, Ok, Tidy, Returnable, Reaches, MeansAll, Computes;
    assert m[was.id].fields + [] == m[was.id].fields;
    PreservesTrans(m0, m, m', dying, owed);
    if Computes(run, fs, sem) && Reaches(m, was, sem, goal) {
      ReachesMore(m', v, sem, Result(sem, m[was.id].kind.fn, vals), goal);
    }
  }

  // ---- application ----

  ghost predicate Applicable(f: Val) { f.Fun? && |f.args| < f.arity }

  // val may result from one argument: from the call once it is the last one, a
  // closure otherwise.
  ghost predicate Applies(sem: Sem, f: Val, x: Val, val: Val) {
    f.Fun? &&
    if |f.args| + 1 == f.arity then sem(f.fn, f.args + [x], val) else val == Fun(f.fn, f.arity, f.args + [x])
  }

  // val may result from the arguments one at a time.
  ghost predicate AppliesAll(sem: Sem, f: Val, xs: seq<Val>, val: Val)
    decreases |xs|
  {
    if xs == [] then val == f
    else exists g :: Applies(sem, f, xs[0], g) && AppliesAll(sem, g, xs[1..], val)
  }

  // Each result in turn is a function, as the types of the program promise.
  ghost predicate Accepts(sem: Sem, f: Val, xs: seq<Val>)
    decreases |xs|
  {
    xs != [] ==> Applicable(f) && forall g :: Applies(sem, f, xs[0], g) ==> Accepts(sem, g, xs[1..])
  }

  ghost function OneResult(sem: Sem, f: Val, x: Val): Val -> bool { val => Applies(sem, f, x, val) }

  ghost function AllResults(sem: Sem, f: Val, xs: seq<Val>): Val -> bool { val => AppliesAll(sem, f, xs, val) }

  // A grown closure is a value the goal allows, or waits for a call that is.
  lemma ExtendedReaches(m: Objs, v: Value, sem: Sem, f: Val, xs: seq<Val>, goal: Val -> bool)
    requires f.Fun? && |f.args| + |xs| <= f.arity && Means(m, v, Fun(f.fn, f.arity, f.args + xs))
    requires |f.args| + |xs| == f.arity ==> forall val :: sem(f.fn, f.args + xs, val) ==> goal(val)
    requires |f.args| + |xs| < f.arity ==> goal(Fun(f.fn, f.arity, f.args + xs))
    ensures Reaches(m, v, sem, goal)
  {
    HoldsFun(m, v, Fun(f.fn, f.arity, f.args + xs));
    hide Means, MeansAll;
  }

  // The arguments of a call, from the meanings of the closure and the new ones.
  lemma CallMeans(m: Objs, c: Value, extra: seq<Value>, f: Val, xs: seq<Val>)
    requires f.Fun? && Means(m, c, f) && MeansAll(m, extra, xs)
    ensures Holds(m, c, Closure(f.fn, f.arity), |f.args|) && MeansAll(m, m[c.id].fields + extra, f.args + xs)
  {
    HoldsFun(m, c, f);
    hide Means;
  }

  method ApplyClosure(h: Heap, run: Run, c: Value, arg: Value, fuel: nat, ghost fs: Functions, ghost sem: Sem, ghost f: Val, ghost x: Val, ghost dying: set<Id>, ghost owed: multiset<Value>)
    returns (r: Value, bounces: nat)
    requires Owning(run, fs) && h.Counts(dying, owed + multiset{c} + multiset{arg}) && Tidy(h.objs, dying, fs)
    requires Takes(h.objs, c, 1) && !Waiting(h.objs, arg)
    modifies h
    ensures CallDone(old(h.objs), h.objs, h.bound, dying, owed, fs, r)
    ensures bounces <= fuel && (Waiting(h.objs, r) ==> bounces == fuel)
    ensures Computes(run, fs, sem) && f.Fun? && Means(old(h.objs), c, f) && Means(old(h.objs), arg, x) ==>
              Reaches(h.objs, r, sem, OneResult(sem, f, x))
  {
    hide Ok, Owning, Computes, Means, MeansAll, Tidy, Preserves, Reaches, Movable, Untouched;
    ghost var m := h.objs;
    ghost var known := Computes(run, fs, sem) && f.Fun? && Means(m, c, f) && Means(m, arg, x);
    assert multiset([arg]) == multiset{arg};
    OneMeans(m, arg, x);
    if known { CallMeans(m, c, [arg], f, [x]); }
    var o := h.objs[c.id];
    if o.rc != 1 && o.kind.arity - |o.fields| == 1 && 1 <= o.kind.arity <= 20 {
      ghost var vals := if f.Fun? then f.args + [x] else [];
      OwedIsLive(m, h.bound, dying, owed + multiset{c} + multiset{arg}, c.id);
      var v := DispatchCopied(h, run, c.id, [arg], fs, sem, vals, dying, owed);
      ghost var m1 := h.objs;
      if known { ReachesMore(m1, v, sem, Result(sem, f.fn, vals), OneResult(sem, f, x)); }
      r, bounces := Trampoline(h, run, v, fuel, fs, sem, OneResult(sem, f, x), dying, owed);
      PreservesTrans(m, m1, h.objs, dying, owed);
    } else {
      var v := Extend(h, c, [arg], fs, f, [x], dying, owed);
      ghost var m1 := h.objs;
      if known { ExtendedReaches(m1, v, sem, f, [x], OneResult(sem, f, x)); }
      r, bounces := Trampoline(h, run, v, fuel, fs, sem, OneResult(sem, f, x), dying, owed);
      PreservesTrans(m, m1, h.objs, dying, owed);
    }
  }

  lemma OneMeans(m: Objs, v: Value, val: Val)
    ensures MeansAll(m, [v], [val]) <==> Means(m, v, val)
  {
    assert [v][0] == v && [val][0] == val;
  }

  // What is left to do with g, after i of the arguments, does it all.
  ghost function Onward(sem: Sem, f: Val, xs: seq<Val>, i: nat): Val -> bool
    requires i <= |xs|
  {
    g => (forall val :: AppliesAll(sem, g, xs[i..], val) ==> AppliesAll(sem, f, xs, val))
         && (Accepts(sem, f, xs) ==> Accepts(sem, g, xs[i..]))
  }

  lemma OnwardStart(m: Objs, v: Value, sem: Sem, f: Val, xs: seq<Val>)
    requires Means(m, v, f) && !Waiting(m, v)
    ensures Reaches(m, v, sem, Onward(sem, f, xs, 0))
  {
    hide Means;
    assert xs[0..] == xs;
    assert Onward(sem, f, xs, 0)(f);
  }

  // The function a closure stands for on the way.
  lemma OnwardAt(m: Objs, v: Value, sem: Sem, f: Val, xs: seq<Val>, i: nat) returns (g: Val)
    requires i <= |xs| && Takes(m, v, 1)
    ensures Reaches(m, v, sem, Onward(sem, f, xs, i)) ==> g.Fun? && Means(m, v, g) && Onward(sem, f, xs, i)(g)
  {
    hide Means, Onward;
    g := Nothing;
    if Reaches(m, v, sem, Onward(sem, f, xs, i)) {
      g :| Means(m, v, g) && Onward(sem, f, xs, i)(g);
      FunOf(m, v, g);
    }
  }

  lemma OnwardMore(m: Objs, v: Value, sem: Sem, f: Val, xs: seq<Val>, i: nat, g: Val)
    requires i < |xs| && Onward(sem, f, xs, i)(g) && Reaches(m, v, sem, OneResult(sem, g, xs[i]))
    ensures Reaches(m, v, sem, Onward(sem, f, xs, i + 1))
  {
    hide Means, Reaches;
    var rest := xs[i..];
    assert rest[1..] == xs[i + 1..] && rest[0] == xs[i];
    forall g' | OneResult(sem, g, xs[i])(g') ensures Onward(sem, f, xs, i + 1)(g') {
      assert forall val :: AppliesAll(sem, g', rest[1..], val) ==> AppliesAll(sem, g, rest, val);
    }
    ReachesMore(m, v, sem, OneResult(sem, g, xs[i]), Onward(sem, f, xs, i + 1));
  }

  lemma OnwardEnd(m: Objs, v: Value, sem: Sem, f: Val, xs: seq<Val>, i: nat)
    requires i <= |xs| && Reaches(m, v, sem, Onward(sem, f, xs, i))
    ensures i == |xs| ==> Reaches(m, v, sem, AllResults(sem, f, xs))
    ensures Accepts(sem, f, xs) && !Waiting(m, v) && !Takes(m, v, 1) ==> i == |xs|
  {
    if i == |xs| {
      assert xs[i..] == [];
      forall g | Onward(sem, f, xs, i)(g) ensures AllResults(sem, f, xs)(g) {
        assert AppliesAll(sem, g, xs[i..], g);
      }
      ReachesMore(m, v, sem, Onward(sem, f, xs, i), AllResults(sem, f, xs));
    } else if Accepts(sem, f, xs) && !Waiting(m, v) {
      var g :| Means(m, v, g) && Onward(sem, f, xs, i)(g);
      assert Applicable(g);
    }
  }

  // n single applications, one after the other; they stop early only at a word
  // that takes no argument, in a typed program a closure that still waits.
  method ApplyOneByOne(h: Heap, run: Run, c: Value, args: seq<Value>, fuel: nat, ghost fs: Functions, ghost sem: Sem, ghost f: Val, ghost xs: seq<Val>, ghost dying: set<Id>, ghost owed: multiset<Value>)
    returns (it: Value, rest: seq<Value>)
    requires Owning(run, fs) && h.Counts(dying, owed + multiset{c} + multiset(args)) && Tidy(h.objs, dying, fs)
    requires Takes(h.objs, c, 1) && Plain(h.objs, args)
    modifies h
    ensures |rest| <= |args| && rest == args[|args| - |rest|..] && (rest != [] ==> !Takes(h.objs, it, 1))
    ensures CallDone(old(h.objs), h.objs, h.bound, dying, owed + multiset(rest), fs, it)
    ensures Computes(run, fs, sem) && Means(old(h.objs), c, f) && MeansAll(old(h.objs), args, xs) ==>
              && (rest == [] ==> Reaches(h.objs, it, sem, AllResults(sem, f, xs)))
              && (Accepts(sem, f, xs) && !Waiting(h.objs, it) ==> rest == [])
  {
    hide Ok, Owning, Computes, Means, MeansAll, Tidy, Preserves, Reaches, Movable, Untouched, Plain, Onward, AllResults, OneResult, Accepts;
    ghost var known := Computes(run, fs, sem) && Means(h.objs, c, f) && MeansAll(h.objs, args, xs);
    it, rest := c, args;
    ghost var i := 0;
    StartOneByOne(h.objs, h.bound, dying, owed, fs, c, args);
    if known {
      OnwardStart(h.objs, c, sem, f, xs);
      MeansLength(h.objs, args, xs);
    }
    while rest != [] && Takes(h.objs, it, 1)
      invariant 0 <= i <= |args| && rest == args[i..]
      invariant CallDone(old(h.objs), h.objs, h.bound, dying, owed + multiset(rest), fs, it) && Plain(h.objs, rest)
      invariant known ==> |xs| == |args| && MeansAll(h.objs, rest, xs[i..]) && Reaches(h.objs, it, sem, Onward(sem, f, xs, i))
      decreases |rest|
    {
      ghost var m, n, was, left := h.objs, h.bound, it, owed + multiset(rest[1..]);
      assert rest == [rest[0]] + rest[1..];
      assert owed + multiset(rest) + multiset{it} == left + multiset{it} + multiset{rest[0]};
      ghost var g, x := Nothing, Nothing;
      if known {
        g := OnwardAt(m, it, sem, f, xs, i);
        x := xs[i];
        FirstMeans(m, rest, xs[i..]);
      }
      FirstPlain(m, rest);
      var bounces;
      it, bounces := ApplyClosure(h, run, it, rest[0], fuel, fs, sem, g, x, dying, left);
      AfterOne(old(h.objs), m, n, h.objs, h.bound, dying, owed, fs, was, it, rest, if known then xs[i..] else []);
      if known {
        OnwardMore(h.objs, it, sem, f, xs, i, g);
        assert xs[i..][1..] == xs[i + 1..];
      }
      rest := rest[1..];
      i := i + 1;
    }
    if known { OnwardEnd(h.objs, it, sem, f, xs, i); }
  }

  lemma MeansLength(m: Objs, vs: seq<Value>, vals: seq<Val>)
    requires MeansAll(m, vs, vals)
    ensures |vs| == |vals| && vals[0..] == vals
  {}

  lemma FirstMeans(m: Objs, vs: seq<Value>, vals: seq<Val>)
    requires vs != [] && MeansAll(m, vs, vals)
    ensures Means(m, vs[0], vals[0])
  {}

  lemma FirstPlain(m: Objs, vs: seq<Value>)
    requires vs != [] && Plain(m, vs)
    ensures !Waiting(m, vs[0])
  {}

  lemma StartOneByOne(m: Objs, n: nat, dying: set<Id>, owed: multiset<Value>, fs: Functions, c: Value, args: seq<Value>)
    requires Ok(m, n, dying, owed + multiset{c} + multiset(args)) && Tidy(m, dying, fs) && Takes(m, c, 1)
    ensures CallDone(m, m, n, dying, owed + multiset(args), fs, c)
  {
    assert owed + multiset{c} + multiset(args) == owed + multiset(args) + multiset{c};
    hide Ok;
    PreservesRefl(m, n, dying, owed + multiset(args), c);
  }

  // One application more: the arguments still to come are as they were.
  lemma AfterOne(m0: Objs, m: Objs, n: nat, m': Objs, n': nat, dying: set<Id>, owed: multiset<Value>, fs: Functions,
                 was: Value, v: Value, rest: seq<Value>, vals: seq<Val>)
    requires rest != [] && CallDone(m0, m, n, dying, owed + multiset(rest), fs, was) && Plain(m, rest)
    requires CallDone(m, m', n', dying, owed + multiset(rest[1..]), fs, v)
    ensures CallDone(m0, m', n', dying, owed + multiset(rest[1..]), fs, v) && Plain(m', rest[1..])
    ensures vals != [] && MeansAll(m, rest, vals) ==> MeansAll(m', rest[1..], vals[1..])
  {
    hide Ok, Tidy, Preserves, Returnable;
    var tail, left := rest[1..], owed + multiset(rest[1..]);
    assert rest == [rest[0]] + tail;
    assert owed + multiset(rest) == left + multiset{rest[0]};
    PreservesLess(m0, m, dying, dying, owed + multiset(rest), left);
    PreservesTrans(m0, m, m', dying, left);
    assert owed + multiset(rest) + multiset{was} == owed + multiset{was} + multiset{rest[0]} + multiset(tail);
    assert Plain(m, tail);
    PlainKept(m, n, m', dying, owed + multiset{was} + multiset{rest[0]}, owed, tail);
    if vals != [] && MeansAll(m, rest, vals) {
      assert MeansAll(m, tail, vals[1..]);
      TailKeepsMeaning(m, m', dying, owed, tail, vals[1..]);
    }
  }

  lemma TailKeepsMeaning(m: Objs, m': Objs, dying: set<Id>, owed: multiset<Value>, args: seq<Value>, vals: seq<Val>)
    requires Preserves(m, m', dying, owed + multiset(args)) && MeansAll(m, args, vals)
    ensures MeansAll(m', args, vals)
  {
    hide Means;
    assert forall i :: 0 <= i < |args| ==> args[i] in multiset(args);
  }

  // All the arguments in one call: the same results as one at a time.
  method ApplyClosureN(h: Heap, run: Run, c: Value, newArgs: seq<Value>, fuel: nat, ghost fs: Functions, ghost sem: Sem, ghost f: Val, ghost xs: seq<Val>, ghost dying: set<Id>, ghost owed: multiset<Value>)
    returns (r: Value, rest: seq<Value>)
    requires Owning(run, fs) && h.Counts(dying, owed + multiset{c} + multiset(newArgs)) && Tidy(h.objs, dying, fs)
    requires Takes(h.objs, c, 1) && Plain(h.objs, newArgs)
    modifies h
    ensures |rest| <= |newArgs| && rest == newArgs[|newArgs| - |rest|..] && (rest != [] ==> !Takes(h.objs, r, 1))
    ensures CallDone(old(h.objs), h.objs, h.bound, dying, owed + multiset(rest), fs, r)
    ensures Computes(run, fs, sem) && Means(old(h.objs), c, f) && MeansAll(old(h.objs), newArgs, xs) ==>
              && (rest == [] ==> Reaches(h.objs, r, sem, AllResults(sem, f, xs)))
              && (Accepts(sem, f, xs) && !Waiting(h.objs, r) ==> rest == [])
  {
    hide Ok, Owning, Computes, Means, MeansAll, Tidy, Preserves, Reaches, Movable, Untouched, AllResults, Accepts, Plain;
    ghost var m := h.objs;
    ghost var known := Computes(run, fs, sem) && Means(m, c, f) && MeansAll(m, newArgs, xs);
    if known {
      FunOf(m, c, f);
      CallMeans(m, c, newArgs, f, xs);
      MeansLength(m, newArgs, xs);
    }
    var o := h.objs[c.id];
    var n, remaining := |newArgs|, o.kind.arity - |o.fields|;
    assert newArgs[n..] == [] && owed + multiset([]) == owed;
    rest := [];
    if n == remaining && 1 <= o.kind.arity <= 20 {
      ghost var vals := if f.Fun? then f.args + xs else [];
      OwedIsLive(m, h.bound, dying, owed + multiset{c} + multiset(newArgs), c.id);
      var v;
      if o.rc == 1 {
        UniqueIsMovable(m, c.id);
        v := DispatchMoved(h, run, c.id, newArgs, fs, sem, vals, dying, owed);
      } else {
        v := DispatchCopied(h, run, c.id, newArgs, fs, sem, vals, dying, owed);
      }
      ghost var m1 := h.objs;
      if known { ExactResults(m1, v, sem, f, xs); }
      var bounces;
      r, bounces := Trampoline(h, run, v, fuel, fs, sem, AllResults(sem, f, xs), dying, owed);
      PreservesTrans(m, m1, h.objs, dying, owed);
    } else if n < remaining {
      r := Extend(h, c, newArgs, fs, f, xs, dying, owed);
      if known { UnderResults(h.objs, r, sem, f, xs); }
    } else {
      r, rest := ApplyOneByOne(h, run, c, newArgs, fuel, fs, sem, f, xs, dying, owed);
    }
  }

  // What a closure word means is a function.
  lemma FunOf(m: Objs, c: Value, f: Val)
    requires c.Ref? && c.id in m && m[c.id].kind.Closure? && Means(m, c, f)
    ensures f.Fun? && f.fn == m[c.id].kind.fn && f.arity == m[c.id].kind.arity && |f.args| == |m[c.id].fields|
  {}

  lemma ExactResults(m: Objs, v: Value, sem: Sem, f: Val, xs: seq<Val>)
    requires Applicable(f) && |f.args| + |xs| == f.arity && Reaches(m, v, sem, Result(sem, f.fn, f.args + xs))
    ensures Reaches(m, v, sem, AllResults(sem, f, xs))
  {
    hide Reaches;
    forall val | Result(sem, f.fn, f.args + xs)(val) ensures AllResults(sem, f, xs)(val) {
      ApplySaturates(sem, f, xs, val);
    }
    ReachesMore(m, v, sem, Result(sem, f.fn, f.args + xs), AllResults(sem, f, xs));
  }

  lemma UnderResults(m: Objs, v: Value, sem: Sem, f: Val, xs: seq<Val>)
    requires f.Fun? && |f.args| + |xs| < f.arity && Means(m, v, Fun(f.fn, f.arity, f.args + xs))
    ensures Reaches(m, v, sem, AllResults(sem, f, xs))
  {
    hide Means, Reaches;
    ApplyUnder(sem, f, xs, Fun(f.fn, f.arity, f.args + xs));
    ExtendedReaches(m, v, sem, f, xs, AllResults(sem, f, xs));
  }

  // Too few arguments, one at a time, are the closure with all of them.
  lemma {:induction false} ApplyUnder(sem: Sem, f: Val, xs: seq<Val>, val: Val)
    requires f.Fun? && |f.args| + |xs| < f.arity
    ensures AppliesAll(sem, f, xs, val) <==> val == Fun(f.fn, f.arity, f.args + xs)
    decreases |xs|
  {
    if xs == [] {
      assert f.args + xs == f.args;
    } else {
      var g := Fun(f.fn, f.arity, f.args + [xs[0]]);
      assert Applies(sem, f, xs[0], g);
      ApplyUnder(sem, g, xs[1..], val);
      assert f.args + [xs[0]] + xs[1..] == f.args + xs;
    }
  }

  // Exactly enough arguments, one at a time, are the call with all of them.
  lemma {:induction false} ApplySaturates(sem: Sem, f: Val, xs: seq<Val>, val: Val)
    requires Applicable(f) && |f.args| + |xs| == f.arity
    ensures AppliesAll(sem, f, xs, val) <==> sem(f.fn, f.args + xs, val)
    decreases |xs|
  {
    if |xs| == 1 {
      assert xs == [xs[0]];
      assert AppliesAll(sem, val, xs[1..], val);
      assert Applies(sem, f, xs[0], val) <==> sem(f.fn, f.args + xs, val);
    } else {
      var g := Fun(f.fn, f.arity, f.args + [xs[0]]);
      assert Applies(sem, f, xs[0], g);
      ApplySaturates(sem, g, xs[1..], val);
      assert f.args + [xs[0]] + xs[1..] == f.args + xs;
    }
  }

  // Where every call has one result, so has every application.
  lemma {:induction false} OneValue(sem: Sem, f: Val, xs: seq<Val>, a: Val, b: Val)
    requires forall fn, vals, p, q :: sem(fn, vals, p) && sem(fn, vals, q) ==> p == q
    requires AppliesAll(sem, f, xs, a) && AppliesAll(sem, f, xs, b)
    ensures a == b
    decreases |xs|
  {
    if xs != [] {
      var g :| Applies(sem, f, xs[0], g) && AppliesAll(sem, g, xs[1..], a);
      var g' :| Applies(sem, f, xs[0], g') && AppliesAll(sem, g', xs[1..], b);
      OneValue(sem, g, xs[1..], a, b);
    }
  }
}
