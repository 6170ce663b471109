// Functions that meet the assumptions of closure application: one that drops
// an argument, one that makes a boxed number, one that hands a closure to the
// trampoline, one that makes a mutable cell and one that builds a constructor.
module SampleFunctions {
  import opened RefCount
  import opened Closures

  const FIRST := 0    // first of two, the second dropped
  const BOX := 1      // a new boxed number, the argument dropped
  const LATER := 2    // first of two, by a tail call of FIRST
  const CELL := 3     // a new mutable cell holding the argument
  const PAIR := 4     // a constructor of both arguments

  const BIG := 0x4000_0000_0000_0000
  const SAMPLES: Functions := map[FIRST := 2, BOX := 1, LATER := 2, CELL := 1, PAIR := 2]

  function New(m: Objs, n: nat, kind: Kind, fields: seq<Value>): Outcome {
    Outcome(m[n := Obj(1, kind, fields)], n + 1, Ref(n))
  }

  function Call(m: Objs, n: nat, fn: nat, args: seq<Value>): Outcome {
    if fn == FIRST && |args| == 2 then Outcome(Dropped(m, [args[1]]), n, args[0])
    else if fn == BOX then New(Dropped(m, args), n, Number(BIG), [])
    else if fn == LATER then New(m, n, Closure(FIRST, 2), args)
    else if fn == CELL then New(m, n, IORef, args)
    else New(m, n, Constructor(PAIR), args)
  }

  // What each of them may return.
  predicate Returns(fn: nat, vals: seq<Val>, val: Val) {
    if fn == FIRST || fn == LATER then |vals| == 2 && val == vals[0]
    else if fn == BOX then val == Num(BIG)
    else if fn == CELL then val.Cell?
    else val == Con(PAIR, vals)
  }

  // A new object, whatever was dropped before.
  lemma NewDone(m: Objs, m1: Objs, n: nat, dying: set<Id>, owed: multiset<Value>, kind: Kind, fields: seq<Value>)
    requires Ok(m1, n, dying, owed + multiset(fields)) && Kept(m, m1) && Untouched(m, m1, dying)
    requires Tidy(m, dying, SAMPLES) && Plain(m1, fields) && n !in m && (IsLeaf(kind) ==> fields == [])
    requires kind.Closure? ==> kind == Closure(FIRST, 2) && |fields| <= 2
    ensures var out := New(m1, n, kind, fields); CallDone(m, out.objs, out.bound, dying, owed, SAMPLES, out.value)
    ensures SameCells(m, New(m1, n, kind, fields).objs)
  {
    hide Ok, Preserves, Tidy;
    var m2 := m1[n := Obj(1, kind, fields)];
    AllocKeeps(m1, n, dying, owed, kind, fields);
    TidyFalls(m, m1, dying, dying, SAMPLES);
    AllocTidy(m1, n, dying, owed, SAMPLES, kind, fields);
    PreservesByCells(m, m2, n + 1, dying, owed, owed + multiset{Ref(n)});
  }

  lemma Ready(m: Objs, n: nat, dying: set<Id>, owed: multiset<Value>, fn: nat, args: seq<Value>)
    requires CallReady(m, n, dying, owed, SAMPLES, fn, args)
    ensures Ok(m, n, dying, owed + multiset(args)) && Tidy(m, dying, SAMPLES) && Plain(m, args) && n !in m
    ensures dying <= m.Keys && |args| == (if fn == BOX || fn == CELL then 1 else 2) && fn <= PAIR
  {}

  lemma CallsOwn(m: Objs, n: nat, dying: set<Id>, owed: multiset<Value>, fn: nat, args: seq<Value>)
    requires CallReady(m, n, dying, owed, SAMPLES, fn, args)
    ensures var out := Call(m, n, fn, args); CallDone(m, out.objs, out.bound, dying, owed, SAMPLES, out.value)
  {
    hide Ok, Tidy, CallReady, CallDone, Kept, Untouched, Dropped;
    Ready(m, n, dying, owed, fn, args);
    KeptRefl(m, dying);
    if fn == FIRST {
      FirstOwns(m, n, dying, owed, args);
    } else if fn == BOX {
      DroppedKeeps(m, n, dying, owed, args);
      assert owed + multiset([]) == owed;
      NewDone(m, Dropped(m, args), n, dying, owed, Number(BIG), []);
    } else {
      var kind := if fn == LATER then Closure(FIRST, 2) else if fn == CELL then IORef else Constructor(PAIR);
      NewDone(m, m, n, dying, owed, kind, args);
    }
  }

  lemma FirstOwns(m: Objs, n: nat, dying: set<Id>, owed: multiset<Value>, args: seq<Value>)
    requires Ok(m, n, dying, owed + multiset(args)) && Tidy(m, dying, SAMPLES) && Plain(m, args) && |args| == 2
    ensures CallDone(m, Dropped(m, [args[1]]), n, dying, owed, SAMPLES, args[0])
    ensures Kept(m, Dropped(m, [args[1]])) && Ok(Dropped(m, [args[1]]), n, dying, owed + multiset{args[0]})
  {
    var m' := Dropped(m, [args[1]]);
    assert args == [args[0]] + [args[1]];
    assert owed + multiset(args) == owed + multiset{args[0]} + multiset([args[1]]);
    DroppedKeeps(m, n, dying, owed + multiset{args[0]}, [args[1]]);
    hide Ok, Dropped, Tidy, Preserves;
    TidyFalls(m, m', dying, dying, SAMPLES);
    PreservesByCells(m, m', n, dying, owed, owed + multiset{args[0]});
    WaitsSame(m, m', n, dying, owed + multiset{args[0]}, args[0]);
  }

  lemma CallsReturn(m: Objs, n: nat, dying: set<Id>, owed: multiset<Value>, fn: nat, args: seq<Value>, vals: seq<Val>)
    requires CallReady(m, n, dying, owed, SAMPLES, fn, args) && MeansAll(m, args, vals)
    ensures var out := Call(m, n, fn, args); Reaches(out.objs, out.value, Returns, Result(Returns, fn, vals))
  {
    hide Ok, Tidy, CallReady, CallDone, Means, Dropped, Untouched;
    Ready(m, n, dying, owed, fn, args);
    var out := Call(m, n, fn, args);
    hide Reaches, Result;
    if fn == FIRST {
      FirstOwns(m, n, dying, owed, args);
      OwedMeansSame(m, out.objs, n, dying, owed + multiset{args[0]}, args[0], vals[0]);
      WaitsSame(m, out.objs, n, dying, owed + multiset{args[0]}, args[0]);
      Shows(out.objs, out.value, fn, vals, vals[0]);
    } else if fn == BOX {
      NumberMeans(out.objs, n);
      Shows(out.objs, out.value, fn, vals, Num(BIG));
    } else if fn == CELL {
      CellMeans(out.objs, n);
      Shows(out.objs, out.value, fn, vals, Cell(n));
    } else {
      var kind := if fn == LATER then Closure(FIRST, 2) else Constructor(PAIR);
      NewKeepsArgs(m, n, dying, owed, kind, args, vals);
      if fn == LATER {
        ShowsLater(out.objs, out.value, vals);
      } else {
        PairMeans(out.objs, n, vals);
        Shows(out.objs, out.value, PAIR, vals, Con(PAIR, vals));
      }
    }
  }

  lemma Shows(m: Objs, v: Value, fn: nat, vals: seq<Val>, val: Val)
    requires !Waiting(m, v) && Means(m, v, val) && Returns(fn, vals, val)
    ensures Reaches(m, v, Returns, Result(Returns, fn, vals))
  {
    hide Means, Returns;
  }

  lemma ShowsLater(m: Objs, v: Value, vals: seq<Val>)
    requires Waiting(m, v) && m[v.id].kind == Closure(FIRST, 2) && MeansAll(m, m[v.id].fields, vals)
    ensures Reaches(m, v, Returns, Result(Returns, LATER, vals))
  {
    hide Means;
    assert forall val :: Returns(FIRST, vals, val) ==> Returns(LATER, vals, val);
  }

  lemma NewKeepsArgs(m: Objs, n: nat, dying: set<Id>, owed: multiset<Value>, kind: Kind, args: seq<Value>, vals: seq<Val>)
    requires Ok(m, n, dying, owed + multiset(args)) && n !in m && MeansAll(m, args, vals) && !IsLeaf(kind)
    ensures MeansAll(New(m, n, kind, args).objs, args, vals)
  {
    hide Means;
    var m' := New(m, n, kind, args).objs;
    AllocKeeps(m, n, dying, owed, kind, args);
    hide Ok;
    forall i | 0 <= i < |args| ensures Means(m', args[i], vals[i]) {
      if args[i].Ref? { FieldIsLive(m', n + 1, dying, owed + multiset{Ref(n)}, n, args[i]); }
      MeansSame(m, m', n + 1, dying, owed + multiset{Ref(n)}, args[i], vals[i]);
    }
  }

  lemma NumberMeans(m: Objs, id: Id)
    requires id in m && m[id].kind == Number(BIG)
    ensures Means(m, Ref(id), Num(BIG))
  {}

  lemma CellMeans(m: Objs, id: Id)
    requires id in m && m[id].kind == IORef
    ensures Means(m, Ref(id), Cell(id))
  {}

  lemma PairMeans(m: Objs, id: Id, vals: seq<Val>)
    requires id in m && m[id].kind == Constructor(PAIR) && MeansAll(m, m[id].fields, vals)
    ensures Means(m, Ref(id), Con(PAIR, vals))
  {}

  // They meet both assumptions.
  lemma SamplesMeetBoth()
    ensures Owning(Call, SAMPLES) && Computes(Call, SAMPLES, Returns)
  {
    forall m, n: nat, dying, owed, fn: nat, args | CallReady(m, n, dying, owed, SAMPLES, fn, args)
      ensures var out := Call(m, n, fn, args); CallDone(m, out.objs, out.bound, dying, owed, SAMPLES, out.value)
    {
      CallsOwn(m, n, dying, owed, fn, args);
    }
    forall m, n: nat, dying, owed, fn: nat, args, vals | CallReady(m, n, dying, owed, SAMPLES, fn, args) && MeansAll(m, args, vals)
      ensures var out := Call(m, n, fn, args); Reaches(out.objs, out.value, Returns, Result(Returns, fn, vals))
    {
      CallsReturn(m, n, dying, owed, fn, args, vals);
    }
  }

  // The trampoline really has something to do for one of them.
  lemma LaterWaits(m: Objs, n: nat, args: seq<Value>)
    requires |args| == 2
    ensures var out := Call(m, n, LATER, args); Waiting(out.objs, out.value) && out.objs[n].rc == 1
  {}
}
