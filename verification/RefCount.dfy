// The reference-counted heap: counts that stick at their maximum, and the
// teardown that loops over one dying child and recurses into the others.
module RefCount {

  const MAX: nat := 65535

  type Id = nat

  // A value word: NULL, an immediate, or a pointer to a heap object.
  datatype Value = Null | Imm(word: int) | Ref(id: Id)

  // Array stands for every kind torn down field by field with drop: arrays
  // and channels. The last three hold no values: a boxed number, a string, and
  // a handle, which is any other object known by its identity only (buffers,
  // mutexes, threads).
  datatype Kind =
    | Constructor(tag: int) | Closure(fn: nat, arity: nat) | Lazy | IORef | Array
    | Number(n: int) | Text(bytes: seq<int>) | Handle

  // A heap object owns a reference to each of its fields.
  datatype Obj = Obj(rc: nat, kind: Kind, fields: seq<Value>)

  type Objs = map<Id, Obj>

  // A torn-down child of this kind is looped to rather than recursed into.
  predicate HasChildren(k: Kind) { k.Constructor? || k.Closure? || k.Lazy? }

  predicate IsLeaf(k: Kind) { k.Number? || k.Text? || k.Handle? }

  lemma KindsWithChildren(k: Kind)
    ensures HasChildren(k) <==> k.Constructor? || k.Closure? || k.Lazy?
  {}

  // ---- counting owning references ----

  // The references object k holds to id, none once it is dying.
  ghost function HeldBy(m: Objs, dying: set<Id>, k: Id, id: Id): nat {
    if k in m && k !in dying then multiset(m[k].fields)[Ref(id)] else 0
  }

  ghost function Held(m: Objs, n: nat, dying: set<Id>, id: Id): nat {
    if n == 0 then 0 else Held(m, n - 1, dying, id) + HeldBy(m, dying, n - 1, id)
  }

  // The references to id held by the live objects and by the running code.
  ghost function Refs(m: Objs, n: nat, dying: set<Id>, owed: multiset<Value>, id: Id): nat {
    owed[Ref(id)] + Held(m, n, dying, id)
  }

  ghost predicate OkAt(m: Objs, n: nat, dying: set<Id>, owed: multiset<Value>, id: Id) {
    var refs := Refs(m, n, dying, owed, id);
    if id in m && id !in dying then m[id].rc == MAX || 0 < m[id].rc == refs < MAX
    else refs == 0
  }

  // Every count is the maximum or the exact number of owning references, and
  // nothing refers to a dying or freed object. The references in owed are
  // held by the running code; the dying objects are allocated but owned by
  // the teardown under way.
  ghost predicate Ok(m: Objs, n: nat, dying: set<Id>, owed: multiset<Value>) {
    && dying <= m.Keys
    && (forall k :: k in m ==> k < n && (IsLeaf(m[k].kind) ==> m[k].fields == []))
    && forall id: Id :: OkAt(m, n, dying, owed, id)
  }

  // Changing one object changes a total by that object's share.
  lemma {:induction false} HeldExcept(m: Objs, d: set<Id>, m': Objs, d': set<Id>, n: nat, v: Id, id: Id)
    requires forall k :: 0 <= k < n && k != v ==> HeldBy(m, d, k, id) == HeldBy(m', d', k, id)
    ensures Held(m', n, d', id) ==
            Held(m, n, d, id) + (if v < n then HeldBy(m', d', v, id) - HeldBy(m, d, v, id) else 0)
  {
    if n > 0 { HeldExcept(m, d, m', d', n - 1, v, id); }
  }

  lemma {:induction false} HeldFrom(m: Objs, n: nat, dying: set<Id>, k: Id, id: Id)
    requires k < n
    ensures HeldBy(m, dying, k, id) <= Held(m, n, dying, id)
  {
    if k < n - 1 { HeldFrom(m, n - 1, dying, k, id); }
  }

  lemma {:induction false} HeldFinder(m: Objs, n: nat, dying: set<Id>, id: Id) returns (k: Id)
    requires Held(m, n, dying, id) > 0
    ensures k < n && HeldBy(m, dying, k, id) > 0
  {
    if HeldBy(m, dying, n - 1, id) > 0 { k := n - 1; } else { k := HeldFinder(m, n - 1, dying, id); }
  }

  // ---- single count changes ----

  // rc_release on a live object.
  function Released(m: Objs, id: Id): Objs
    requires id in m && m[id].rc > 0
  {
    if m[id].rc == MAX then m else m[id := m[id].(rc := m[id].rc - 1)]
  }

  // dup.
  function Dupped(m: Objs, v: Value): Objs
    requires v.Ref? ==> v.id in m
  {
    if v.Ref? && m[v.id].rc != MAX then m[v.id := m[v.id].(rc := m[v.id].rc + 1)] else m
  }

  // n dups, one after the other.
  function DuppedTimes(m: Objs, v: Value, n: nat): (m': Objs)
    requires v.Ref? ==> v.id in m
    ensures m'.Keys == m.Keys
  {
    if n == 0 then m else Dupped(DuppedTimes(m, v, n - 1), v)
  }

  // The batched count: it stops at the maximum instead of passing it.
  lemma {:induction false} DuppedTimesIs(m: Objs, v: Value, n: nat)
    requires v.Ref? ==> v.id in m && m[v.id].rc <= MAX
    ensures DuppedTimes(m, v, n) ==
            if v.Ref? then m[v.id := m[v.id].(rc := if m[v.id].rc + n > 65535 then 65535 else m[v.id].rc + n)] else m
  {
    if n > 0 { DuppedTimesIs(m, v, n - 1); }
  }

  lemma {:induction false} DupTimesKeeps(m: Objs, n: nat, dying: set<Id>, owed: multiset<Value>, v: Value, times: nat)
    requires Ok(m, n, dying, owed) && (v.Ref? ==> v.id in m && v.id !in dying)
    ensures Ok(DuppedTimes(m, v, times), n, dying, owed[v := owed[v] + times])
  {
    hide Ok;
    assert owed[v := owed[v]] == owed;
    if times > 0 {
      DupTimesKeeps(m, n, dying, owed, v, times - 1);
      DupKeeps(DuppedTimes(m, v, times - 1), n, dying, owed[v := owed[v] + times - 1], v);
      assert owed[v := owed[v] + times - 1] + multiset{v} == owed[v := owed[v] + times];
    }
  }

  lemma CountWithinMax(m: Objs, n: nat, dying: set<Id>, owed: multiset<Value>, id: Id)
    requires Ok(m, n, dying, owed) && id in m && id !in dying
    ensures 0 < m[id].rc <= MAX
  {
    assert OkAt(m, n, dying, owed, id);
  }

  lemma OwedIsLive(m: Objs, n: nat, dying: set<Id>, owed: multiset<Value>, id: Id)
    requires Ok(m, n, dying, owed) && owed[Ref(id)] > 0
    ensures id in m && id !in dying && m[id].rc > 0
  {
    assert OkAt(m, n, dying, owed, id);
  }

  lemma OkAllocated(m: Objs, n: nat, dying: set<Id>, owed: multiset<Value>)
    requires Ok(m, n, dying, owed)
    ensures dying <= m.Keys
  {}

  lemma OkLeaf(m: Objs, n: nat, dying: set<Id>, owed: multiset<Value>, v: Id)
    requires Ok(m, n, dying, owed) && v in m
    ensures IsLeaf(m[v].kind) ==> m[v].fields == []
  {}

  lemma ReleaseKeeps(m: Objs, n: nat, dying: set<Id>, owed: multiset<Value>, id: Id)
    requires Ok(m, n, dying, owed + multiset{Ref(id)})
    ensures id in m && id !in dying && m[id].rc > 0
    ensures m[id].rc != 1 ==> Ok(Released(m, id), n, dying, owed)
    ensures m[id].rc == 1 ==> Ok(Released(m, id), n, dying + {id}, owed + multiset(m[id].fields))
  {
    OwedIsLive(m, n, dying, owed + multiset{Ref(id)}, id);
    var m' := Released(m, id);
    forall x: Id
      ensures m[id].rc != 1 ==> OkAt(m', n, dying, owed, x)
      ensures m[id].rc == 1 ==> OkAt(m', n, dying + {id}, owed + multiset(m[id].fields), x)
    {
      assert OkAt(m, n, dying, owed + multiset{Ref(id)}, x);
      HeldExcept(m, dying, m', dying, n, id, x);
      HeldExcept(m, dying, m', dying + {id}, n, id, x);
      if x == id {
        HeldFrom(m, n, dying, id, id);
      }
    }
  }

  lemma DupKeeps(m: Objs, n: nat, dying: set<Id>, owed: multiset<Value>, v: Value)
    requires Ok(m, n, dying, owed) && (v.Ref? ==> v.id in m && v.id !in dying)
    ensures Ok(Dupped(m, v), n, dying, owed + multiset{v})
  {
    var m' := Dupped(m, v);
    forall x: Id ensures OkAt(m', n, dying, owed + multiset{v}, x) {
      assert OkAt(m, n, dying, owed, x);
      HeldExcept(m, dying, m', dying, n, 0, x);
    }
  }

  // Freeing a dying object's memory.
  lemma FreeKeeps(m: Objs, n: nat, dying: set<Id>, owed: multiset<Value>, v: Id)
    requires Ok(m, n, dying, owed) && v in dying
    ensures Ok(m - {v}, n, dying - {v}, owed)
  {
    forall x: Id ensures OkAt(m - {v}, n, dying - {v}, owed, x) {
      assert OkAt(m, n, dying, owed, x);
      HeldExcept(m, dying, m - {v}, dying - {v}, n, v, x);
    }
  }

  // A new object takes over the references it is built from.
  lemma AllocKeeps(m: Objs, n: nat, dying: set<Id>, owed: multiset<Value>, kind: Kind, fields: seq<Value>)
    requires Ok(m, n, dying, owed + multiset(fields)) && (IsLeaf(kind) ==> fields == [])
    ensures Ok(m[n := Obj(1, kind, fields)], n + 1, dying, owed + multiset{Ref(n)})
  {
    var m' := m[n := Obj(1, kind, fields)];
    var before, after, n' := owed + multiset(fields), owed + multiset{Ref(n)}, n + 1;
    forall x: Id ensures OkAt(m', n', dying, after, x) {
      assert OkAt(m, n, dying, before, x);
      HeldExcept(m, dying, m', dying, n, n, x);
    }
  }

  // ---- what a teardown leaves alone ----

  // The survivors keep their kinds and fields, no count grows, and an
  // immortal object stays as it is.
  ghost predicate Kept(m: Objs, m': Objs) {
    && m'.Keys <= m.Keys
    && (forall id :: id in m' ==> m'[id].kind == m[id].kind && m'[id].fields == m[id].fields && m'[id].rc <= m[id].rc)
    && (forall id :: id in m' && m'[id].rc == MAX ==> m[id].rc == MAX)
    && (forall id :: id in m && m[id].rc == MAX ==> id in m' && m'[id] == m[id])
  }

  ghost predicate Untouched(m: Objs, m': Objs, ids: set<Id>) {
    forall id :: id in ids ==> id in m && id in m' && m'[id] == m[id]
  }

  // No object of gone has two dying children that are constructors, closures or
  // lazy cells, and none is a mutable cell or an array.
  ghost predicate Slim(m: Objs, gone: set<Id>) {
    forall o :: o in gone && o in m ==> SlimAt(m, gone, o)
  }

  ghost predicate Deep(m: Objs, gone: set<Id>, v: Value) {
    && v.Ref? && v.id in gone && v.id in m
    && (m[v.id].kind.Constructor? || m[v.id].kind.Closure? || m[v.id].kind.Lazy?)
  }

  ghost predicate SlimAt(m: Objs, gone: set<Id>, o: Id)
    requires o in m
  {
    && !m[o].kind.IORef? && !m[o].kind.Array?
    && forall x, y :: x in m[o].fields && y in m[o].fields && Deep(m, gone, x) && Deep(m, gone, y) ==> x == y
  }

  // Slim over what is not live any more, and the dying objects in dead.
  ghost predicate SlimSince(m0: Objs, live: set<Id>, dead: set<Id>) { Slim(m0, m0.Keys - live + dead) }

  lemma SlimShrinks(m: Objs, gone: set<Id>, m': Objs, gone': set<Id>)
    requires Kept(m, m') && gone' <= gone && Slim(m, gone)
    ensures Slim(m', gone')
  {
    forall o | o in gone' && o in m' ensures SlimAt(m', gone', o) {
      assert SlimAt(m, gone, o);
      assert forall x :: Deep(m', gone', x) ==> Deep(m, gone, x);
    }
  }

  lemma SlimEarlier(m0: Objs, live: set<Id>, dead: set<Id>, live': set<Id>, dead': set<Id>)
    requires live' <= live <= m0.Keys && dead <= dead' + (live - live') && SlimSince(m0, live', dead')
    ensures SlimSince(m0, live, dead)
  {
    KeptRefl(m0, {});
    hide Slim;
    SlimShrinks(m0, m0.Keys - live' + dead', m0, m0.Keys - live + dead);
  }

  lemma KeptTrans(m: Objs, m': Objs, m'': Objs, ids: set<Id>)
    requires Kept(m, m') && Kept(m', m'')
    ensures Kept(m, m'')
    ensures Untouched(m, m', ids) && Untouched(m', m'', ids) ==> Untouched(m, m'', ids)
  {}

  lemma KeptRefl(m: Objs, ids: set<Id>)
    requires ids <= m.Keys
    ensures Kept(m, m) && Untouched(m, m, ids)
  {}

  // One round of a teardown: v's fields released, then v freed.
  lemma RoundKeeps(m: Objs, m': Objs, n: nat, d: set<Id>, owed: multiset<Value>, v: Id, next: Value)
    requires Kept(m, m') && Untouched(m, m', d)
    requires v in d && v in m && m[v].rc != MAX && (next == Null || (Deferred(m', next) && next.id !in d))
    requires Ok(m', n, d + NextId(next), owed + NextFields(m', next))
    ensures v in m' && Kept(m, m' - {v}) && Untouched(m, m' - {v}, d - {v})
    ensures (m' - {v}).Keys == m'.Keys - {v} && m'.Keys <= m.Keys
    ensures next == Null || Deferred(m' - {v}, next)
    ensures Ok(m' - {v}, n, d - {v} + NextId(next), owed + NextFields(m' - {v}, next))
    ensures SlimSince(m, m'.Keys - {v}, NextId(next)) ==> SlimSince(m, m'.Keys, NextId(next) + {v})
  {
    hide Ok, Slim, SlimSince;
    assert v in d + NextId(next) && d + NextId(next) - {v} == d - {v} + NextId(next);
    FreeKeeps(m', n, d + NextId(next), owed + NextFields(m', next), v);
    if SlimSince(m, m'.Keys - {v}, NextId(next)) {
      SlimEarlier(m, m'.Keys, NextId(next) + {v}, m'.Keys - {v}, NextId(next));
    }
  }

  // A field of v released, after m0 had become m.
  lemma FieldSlim(m0: Objs, m: Objs, m': Objs, d: set<Id>, v: Id, x: Value, pending: Value, next: Value, depth: nat)
    requires Kept(m0, m) && Untouched(m0, m, d) && Kept(m, m') && Untouched(m, m', d + NextId(pending))
    requires v in d && v in m0 && !IsLeaf(m0[v].kind) && x in m0[v].fields
    requires pending == Null || (Deferred(m, pending) && pending in m0[v].fields)
    requires next == pending || (pending == Null && m.Keys == m'.Keys)
    requires depth > 1 ==> Recursed(m, m', x, pending, HasChildren(m0[v].kind))
    requires m.Keys <= m0.Keys
    ensures Kept(m0, m') && Untouched(m0, m', d) && m'.Keys <= m.Keys
    ensures d + NextId(pending) <= m'.Keys
    ensures SlimSince(m0, m'.Keys, NextId(next) + {v}) ==> SlimSince(m0, m.Keys, NextId(pending) + {v}) && depth <= 1
  {
    hide Slim, SlimSince;
    KeptTrans(m0, m, m', d);
    var dead := NextId(pending) + {v};
    if SlimSince(m0, m'.Keys, NextId(next) + {v}) {
      SlimEarlier(m0, m.Keys, dead, m'.Keys, NextId(next) + {v});
      if depth > 1 {
        KeptAt(m0, m, x.id);
        if pending != Null { KeptAt(m0, m, pending.id); }
        assert m0.Keys - m'.Keys + (NextId(next) + {v}) == m0.Keys - m'.Keys + dead || next != pending;
        RecursionSlim(m0, m', v, x, pending);
      }
    }
  }

  // A child torn down by recursion breaks slimness, unless it is a leaf.
  lemma RecursionSlim(m: Objs, m': Objs, v: Id, x: Value, next: Value)
    requires v in m && v in m' && !IsLeaf(m[v].kind) && x in m[v].fields
    requires Recursed(m, m', x, next, HasChildren(m[v].kind))
    requires next == Null || (Deferred(m, next) && next in m[v].fields && next.id in m')
    ensures !SlimSince(m, m'.Keys, NextId(next) + {v})
  {
    var gone := m.Keys - m'.Keys + (NextId(next) + {v});
    assert Deep(m, gone, x) || !SlimAt(m, gone, x.id);
    assert next != Null ==> Deep(m, gone, next);
  }

  // The rounds so far and one more.
  lemma RoundKept(m0: Objs, m: Objs, m': Objs, v: Id, d: set<Id>, dead: set<Id>)
    requires Kept(m0, m) && Untouched(m0, m, d - {v}) && Kept(m, m') && Untouched(m, m', d - {v})
    requires v in m && v !in m' && m'.Keys <= m.Keys <= m0.Keys && dead <= m'.Keys
    ensures Kept(m0, m') && Untouched(m0, m', d - {v})
    ensures SlimSince(m0, m'.Keys, dead) ==> SlimSince(m0, m.Keys, {v}) && SlimSince(m, m'.Keys, dead)
  {
    KeptTrans(m0, m, m', d - {v});
    hide Slim, Kept;
    if SlimSince(m0, m'.Keys, dead) {
      SlimEarlier(m0, m.Keys, {v}, m'.Keys, dead);
      SlimShrinks(m0, m0.Keys - m'.Keys + dead, m, m.Keys - m'.Keys + dead);
    }
  }

  // A step that leaves the dying objects and the deferred child alone.
  lemma StepKept(m0: Objs, m: Objs, m': Objs, d: set<Id>, next: Value)
    requires Kept(m0, m) && Untouched(m0, m, d) && Kept(m, m') && Untouched(m, m', d)
    requires next == Null || (Deferred(m, next) && next.id in d)
    ensures Kept(m0, m') && Untouched(m0, m', d) && d <= m'.Keys <= m.Keys <= m0.Keys
    ensures next == Null || Deferred(m', next)
    ensures NextFields(m', next) == NextFields(m, next)
  {
    KeptTrans(m0, m, m', d);
  }

  lemma KeptAt(m: Objs, m': Objs, id: Id)
    requires Kept(m, m') && id in m'
    ensures id in m && m'[id].kind == m[id].kind && m'[id].fields == m[id].fields
  {}

  lemma NoneAdded(live: set<Id>, d: set<Id>, live': set<Id>, d': set<Id>)
    requires live' <= live && d <= d'
    ensures |live' - d'| <= |live - d|
  {
    Smaller(live' - d', live - d);
  }

  lemma Smaller(a: set<Id>, b: set<Id>)
    requires a <= b
    ensures |a| <= |b|
  {
    var gone := b - a;
    assert b == a + gone;
  }

  // One more object is dying.
  lemma FewerLeft(live: set<Id>, d: set<Id>, live': set<Id>, d': set<Id>, c: Id)
    requires live' - d' <= live - d && c in live && c !in d && c in d'
    ensures |live' - d'| < |live - d|
  {
    Smaller(live' - d', live - d - {c});
  }

  // The references of a field not released yet.
  lemma FieldOwed(fields: seq<Value>, i: nat, owed: multiset<Value>, pending: multiset<Value>)
    requires i < |fields|
    ensures owed + multiset(fields[i..]) + pending == owed + multiset(fields[i + 1..]) + pending + multiset{fields[i]}
  {
    assert fields[i..] == [fields[i]] + fields[i + 1..];
  }

  // ---- the heap ----

  class Heap {
    var objs: Objs
    var bound: nat

    ghost predicate Counts(dying: set<Id>, owed: multiset<Value>)
      reads this
    {
      Ok(objs, bound, dying, owed)
    }

    constructor ()
      ensures Counts({}, multiset{}) && objs == map[]
    {
      objs, bound := map[], 0;
      new;
      forall x: Id ensures OkAt(objs, bound, {}, multiset{}, x) {}
    }

    // Drops one reference; true if it was the last.
    method Release(id: Id) returns (last: bool)
      requires id in objs && objs[id].rc > 0
      modifies this
      ensures bound == old(bound) && objs == Released(old(objs), id)
      ensures objs == old(objs)[id := old(objs[id]).(rc := old(objs[id].rc) - if old(objs[id].rc) == 65535 then 0 else 1)]
      ensures last == (old(objs[id].rc) == 1)
    {
      var c := objs[id].rc;
      if c == MAX {
        return false;
      }
      objs := objs[id := objs[id].(rc := c - 1)];
      last := c == 1;
    }

    method Dup(v: Value, ghost dying: set<Id>, ghost owed: multiset<Value>)
      requires Counts(dying, owed) && (v.Ref? ==> v.id in objs && v.id !in dying)
      modifies this
      ensures bound == old(bound) && objs == Dupped(old(objs), v)
      ensures Counts(dying, owed + multiset{v})
    {
      DupKeeps(objs, bound, dying, owed, v);
      if v.Ref? && objs[v.id].rc != MAX {
        objs := objs[v.id := objs[v.id].(rc := objs[v.id].rc + 1)];
      }
    }

    // n dups at once.
    method DupN(v: Value, n: nat, ghost dying: set<Id>, ghost owed: multiset<Value>)
      requires Counts(dying, owed) && (v.Ref? ==> v.id in objs && v.id !in dying)
      modifies this
      ensures bound == old(bound) && objs == DuppedTimes(old(objs), v, n)
      ensures Counts(dying, owed[v := owed[v] + n])
    {
      hide Ok;
      DupTimesKeeps(objs, bound, dying, owed, v, n);
      if v.Ref? {
        CountWithinMax(objs, bound, dying, owed, v.id);
        DuppedTimesIs(objs, v, n);
        var cur := objs[v.id].rc;
        if cur != MAX {
          objs := objs[v.id := objs[v.id].(rc := if cur > MAX - n then MAX else cur + n)];
        }
      } else {
        DuppedTimesIs(objs, v, n);
      }
    }

    // Takes over the fields' references and hands out the only one to itself.
    method Alloc(kind: Kind, fields: seq<Value>, ghost dying: set<Id>, ghost owed: multiset<Value>) returns (id: Id)
      requires Counts(dying, owed + multiset(fields)) && (IsLeaf(kind) ==> fields == [])
      modifies this
      ensures id == old(bound) && bound == id + 1 && id !in old(objs)
      ensures objs == old(objs)[id := Obj(1, kind, fields)]
      ensures Counts(dying, owed + multiset{Ref(id)})
    {
      AllocKeeps(objs, bound, dying, owed, kind, fields);
      id := bound;
      objs, bound := objs[id := Obj(1, kind, fields)], bound + 1;
    }

    // Drops the fields of an object whose last reference is gone and frees it,
    // along with everything that dies with it. The dying objects other than v0
    // belong to the callers further up. Recursion stays one level deep unless
    // some freed object has two dying children with children.
    method Teardown(v0: Id, ghost dying: set<Id>, ghost owed: multiset<Value>) returns (ghost depth: nat)
      requires v0 in dying && v0 in objs && objs[v0].rc != MAX
      requires Counts(dying, owed + multiset(objs[v0].fields))
      modifies this
      ensures bound == old(bound) && v0 !in objs
      ensures Counts(dying - {v0}, owed)
      ensures Kept(old(objs), objs) && Untouched(old(objs), objs, dying - {v0})
      ensures SlimSince(old(objs), objs.Keys, {}) ==> depth <= 1
      ensures IsLeaf(old(objs[v0].kind)) ==> depth == 0
      decreases |objs.Keys - dying|, 3
    {
      hide Ok, Slim, SlimSince, Kept, Untouched, HasChildren;
      depth := 0;
      var v, more := v0, true;
      OkAllocated(objs, bound, dying, owed + multiset(objs[v0].fields));
      ghost var d := dying;
      KeptRefl(objs, dying - {v0});
      while more
        invariant bound == old(bound)
        invariant v in d && d - {v} == dying - {v0}
        invariant Kept(old(objs), objs) && Untouched(old(objs), objs, d - {v})
        invariant objs.Keys <= old(objs).Keys
        invariant if more then v in objs && objs[v].rc != MAX && Counts(d, owed + multiset(objs[v].fields))
                  else v0 !in objs && Counts(d - {v}, owed)
        invariant v == v0 || v0 !in objs
        invariant SlimSince(old(objs), objs.Keys, if more then {v} else {}) ==> depth <= 1
        invariant IsLeaf(old(objs[v0].kind)) ==> depth == 0 && (v == v0 || !more)
        decreases |objs.Keys - d|, more
      {
        ghost var before := objs;
        KeptAt(old(objs), objs, v);
        var next;
        ghost var inner;
        next, inner := Round(v, d, owed);
        depth := if inner > depth then inner else depth;
        RoundKept(old(objs), before, objs, v, d, NextId(next));
        NoneAdded(before.Keys, d, objs.Keys, d);
        if next == Null {
          assert d - {v} + {} == d - {v} && owed + multiset{} == owed;
          more := false;
        } else {
          FewerLeft(before.Keys, d, objs.Keys, d - {v} + {next.id}, next.id);
          d := d - {v} + {next.id};
          v := next.id;
        }
      }
    }

    // One round: the fields, then the object itself.
    method Round(v: Id, ghost d: set<Id>, ghost owed: multiset<Value>) returns (next: Value, ghost depth: nat)
      requires v in d && v in objs && objs[v].rc != MAX && Counts(d, owed + multiset(objs[v].fields))
      modifies this
      ensures bound == old(bound) && Kept(old(objs), objs) && Untouched(old(objs), objs, d - {v})
      ensures v !in objs && objs.Keys <= old(objs).Keys
      ensures next == Null || (Deferred(objs, next) && next.id !in d)
      ensures Counts(d - {v} + NextId(next), owed + NextFields(objs, next))
      ensures SlimSince(old(objs), objs.Keys, NextId(next)) ==> depth <= 1
      ensures IsLeaf(old(objs[v].kind)) ==> depth == 0 && next == Null
      decreases |objs.Keys - d|, 2
    {
      hide Ok, Slim, SlimSince, Kept, Untouched, HasChildren;
      OkAllocated(objs, bound, d, owed + multiset(objs[v].fields));
      KeptRefl(objs, d);
      next, depth := ReleaseFields(v, d, owed);
      RoundKeeps(old(objs), objs, bound, d, owed, v, next);
      objs := objs - {v};
    }

    // Releases the fields of a dying object. The first child that dies and has
    // children is handed back instead of being torn down.
    method ReleaseFields(v: Id, ghost d: set<Id>, ghost owed: multiset<Value>) returns (next: Value, ghost depth: nat)
      requires v in d && v in objs && Counts(d, owed + multiset(objs[v].fields))
      modifies this
      ensures bound == old(bound) && Kept(old(objs), objs) && Untouched(old(objs), objs, d)
      ensures next == Null || (Deferred(objs, next) && next.id !in d)
      ensures Counts(d + NextId(next), owed + NextFields(objs, next))
      ensures SlimSince(old(objs), objs.Keys, NextId(next) + {v}) ==> depth <= 1
      ensures IsLeaf(old(objs[v].kind)) ==> depth == 0 && next == Null
      ensures next != Null ==> old(objs[v].kind).Constructor? || old(objs[v].kind).Closure? || old(objs[v].kind).Lazy?
      decreases |objs.Keys - d|, 1
    {
      hide Ok, Slim, SlimSince, Kept, Untouched, HasChildren;
      next, depth := Null, 0;
      var fields := objs[v].fields;
      var loops := HasChildren(objs[v].kind);
      KindsWithChildren(objs[v].kind);
      OkAllocated(objs, bound, d, owed + multiset(fields));
      KeptRefl(objs, d);
      OkLeaf(objs, bound, d, owed + multiset(fields), v);
      assert fields[0..] == fields && d + {} == d && owed + multiset(fields) + multiset{} == owed + multiset(fields);
      for i := 0 to |fields|
        invariant bound == old(bound) && Kept(old(objs), objs) && Untouched(old(objs), objs, d)
        invariant d + NextId(next) <= objs.Keys <= old(objs).Keys
        invariant next == Null || (Deferred(objs, next) && next.id !in d && next in fields && loops)
        invariant Counts(d + NextId(next), owed + multiset(fields[i..]) + NextFields(objs, next))
        invariant SlimSince(old(objs), objs.Keys, NextId(next) + {v}) ==> depth <= 1
        invariant fields == [] ==> depth == 0 && next == Null
      {
        ghost var before, pending := objs, next;
        ghost var rest := owed + multiset(fields[i + 1..]);
        FieldOwed(fields, i, owed, NextFields(objs, next));
        NoneAdded(old(objs).Keys, d, objs.Keys, d + NextId(next));
        ghost var inner;
        next, inner := ReleaseField(fields[i], loops, next, d, rest);
        FieldSlim(old(objs), before, objs, d, v, fields[i], pending, next, inner);
        depth := if inner > depth then inner else depth;
      }
      assert fields[|fields|..] == [] && owed + multiset{} == owed;
    }

    // Drops one field: a child that dies is kept for the loop if it is the
    // first to do so and has children, and torn down otherwise.
    method ReleaseField(x: Value, loops: bool, pending: Value, ghost d: set<Id>, ghost owed: multiset<Value>)
      returns (next: Value, ghost depth: nat)
      requires pending == Null || (Deferred(objs, pending) && pending.id !in d)
      requires Counts(d + NextId(pending), owed + NextFields(objs, pending) + multiset{x})
      modifies this
      ensures bound == old(bound) && Kept(old(objs), objs) && Untouched(old(objs), objs, d + NextId(pending))
      ensures next == Null || (Deferred(objs, next) && next.id !in d)
      ensures next == pending || (pending == Null && next == x && loops && objs.Keys == old(objs).Keys)
      ensures var kept := x.Ref? && x.id in old(objs) && old(objs[x.id].rc) == 1 && loops && pending == Null &&
                (old(objs[x.id].kind).Constructor? || old(objs[x.id].kind).Closure? || old(objs[x.id].kind).Lazy?);
              next == if kept then x else pending
      ensures Counts(d + NextId(next), owed + NextFields(objs, next))
      ensures depth > 1 ==> Recursed(old(objs), objs, x, pending, loops)
      decreases |objs.Keys - (d + NextId(pending))|, 0
    {
      hide Ok, Slim, SlimSince, Kept, Untouched, HasChildren;
      next, depth := pending, 0;
      ghost var dd, rest := d + NextId(next), owed + NextFields(objs, next);
      OkAllocated(objs, bound, dd, rest + multiset{x});
      KeptRefl(objs, dd);
      if x.Ref? {
        OwedIsLive(objs, bound, dd, rest + multiset{x}, x.id);
        KindsWithChildren(objs[x.id].kind);
      }
      var last := ReleaseLast(x, dd, rest);
      StepKept(old(objs), old(objs), objs, dd, next);
      if last {
        var c := x.id;
        if loops && next == Null && HasChildren(objs[c].kind) {
          next := x;
          assert dd + {c} == d + NextId(next);
          assert rest + multiset(objs[c].fields) == owed + NextFields(objs, next);
        } else {
          ghost var released := objs;
          FewerLeft(old(objs).Keys, dd, objs.Keys, dd + {c}, c);
          ghost var inner := Teardown(c, dd + {c}, rest);
          assert dd + {c} - {c} == dd;
          StepKept(old(objs), released, objs, dd, next);
          KeptAt(old(objs), released, c);
          depth := inner + 1;
        }
      }
    }

    // Whether dropping v released its last reference.
    method ReleaseLast(v: Value, ghost dying: set<Id>, ghost owed: multiset<Value>) returns (last: bool)
      requires Counts(dying, owed + multiset{v})
      modifies this
      ensures bound == old(bound) && Kept(old(objs), objs) && Untouched(old(objs), objs, dying)
      ensures objs.Keys == old(objs).Keys
      ensures last == (v.Ref? && v.id in old(objs) && old(objs[v.id].rc) == 1)
      ensures !last ==> Counts(dying, owed)
      ensures last ==> v.Ref? && v.id in objs && v.id !in dying && objs[v.id].rc != MAX
                       && Counts(dying + {v.id}, owed + multiset(objs[v.id].fields))
    {
      last := false;
      if v.Ref? {
        ReleaseKeeps(objs, bound, dying, owed, v.id);
        CountWithinMax(objs, bound, dying, owed + multiset{v}, v.id);
        last := Release(v.id);
      } else {
        OwedPlain(objs, bound, dying, owed, v);
      }
    }

    // Drops one reference held by the running code. Where no reference cycle
    // exists, what is left is exactly what can still be reached.
    method Drop(v: Value, ghost dying: set<Id>, ghost owed: multiset<Value>)
      requires Counts(dying, owed + multiset{v})
      modifies this
      ensures bound == old(bound) && Counts(dying, owed)
      ensures Kept(old(objs), objs) && Untouched(old(objs), objs, dying)
      ensures dying == {} ==> forall rank :: Acyclic(old(objs), rank) ==>
                && (forall id: Id :: id in objs <==> Reachable(old(objs), owed, id))
                && objs == Dropped(old(objs), [v])
    {
      hide Ok, Kept, Untouched, Acyclic, Reachable, Dropped;
      OkAllocated(objs, bound, dying, owed + multiset{v});
      var last := ReleaseLast(v, dying, owed);
      ghost var released := objs;
      if last {
        assert dying + {v.id} - {v.id} == dying;
        ghost var _ := Teardown(v.id, dying + {v.id}, owed);
        KeptTrans(old(objs), released, objs, dying);
      }
      forall rank | dying == {} && Acyclic(old(objs), rank)
        ensures forall id: Id :: id in objs <==> Reachable(old(objs), owed, id)
        ensures objs == Dropped(old(objs), [v])
      {
        LeftIsReachable(old(objs), objs, bound, owed, rank);
        assert owed + multiset{v} == owed + multiset([v]);
        DroppedKeeps(old(objs), bound, {}, owed, [v]);
        Determined(old(objs), objs, Dropped(old(objs), [v]), bound, owed, rank);
      }
    }

    // Frees a value known to be unshared, without looking at its count.
    method Free(v: Value, ghost owed: multiset<Value>)
      requires Counts({}, owed + multiset{v})
      requires v.Ref? ==> v.id in objs && objs[v.id].rc == 1
      modifies this
      ensures bound == old(bound) && Counts({}, owed) && Kept(old(objs), objs)
    {
      hide Ok, Kept, Untouched, Released;
      if v.Ref? {
        UnsharedDies(objs, bound, {}, owed, v.id);
        assert {} + {v.id} == {v.id};
        ghost var _ := Teardown(v.id, {v.id}, owed);
        assert {v.id} - {v.id} == {};
      } else {
        OwedPlain(objs, bound, {}, owed, v);
        KeptRefl(objs, {});
      }
    }
  }

  // The only reference to an object is the one given up: it can be torn down.
  lemma UnsharedDies(m: Objs, n: nat, dying: set<Id>, owed: multiset<Value>, id: Id)
    requires Ok(m, n, dying, owed + multiset{Ref(id)}) && id in m && m[id].rc == 1
    ensures id !in dying && Ok(m, n, dying + {id}, owed + multiset(m[id].fields))
  {
    var d, before, after := dying + {id}, owed + multiset{Ref(id)}, owed + multiset(m[id].fields);
    assert OkAt(m, n, dying, before, id);
    forall x: Id ensures OkAt(m, n, d, after, x) {
      assert OkAt(m, n, dying, before, x);
      HeldExcept(m, dying, m, d, n, id, x);
      if x == id { HeldFrom(m, n, dying, id, id); }
    }
  }

  // ---- nothing leaks ----

  // Every object points only to objects of lower rank.
  ghost predicate Acyclic(m: Objs, rank: Id -> nat) {
    forall p, c: Id :: p in m && Ref(c) in m[p].fields ==> rank(c) < rank(p)
  }

  // Reached in k steps from the running code or from an immortal object.
  ghost predicate ReachableIn(m: Objs, owed: multiset<Value>, id: Id, k: nat)
    decreases k
  {
    if k == 0 then owed[Ref(id)] > 0 || (id in m && m[id].rc == MAX)
    else exists p: Id :: p in m && Ref(id) in m[p].fields && ReachableIn(m, owed, p, k - 1)
  }

  ghost predicate Reachable(m: Objs, owed: multiset<Value>, id: Id) {
    exists k: nat :: ReachableIn(m, owed, id, k)
  }

  lemma {:induction false} ReachableIsLive(m: Objs, m': Objs, n: nat, owed: multiset<Value>, id: Id, k: nat)
    requires Ok(m', n, {}, owed) && Kept(m, m') && ReachableIn(m, owed, id, k)
    ensures id in m'
    decreases k
  {
    assert OkAt(m', n, {}, owed, id);
    if k > 0 {
      var p: Id :| p in m && Ref(id) in m[p].fields && ReachableIn(m, owed, p, k - 1);
      ReachableIsLive(m, m', n, owed, p, k - 1);
      HeldFrom(m', n, {}, p, id);
    }
  }

  // An object is owed, immortal or held by an object of higher rank.
  lemma {:induction false} LiveIsReachable(m: Objs, m': Objs, n: nat, owed: multiset<Value>, rank: Id -> nat, top: nat, id: Id) returns (k: nat)
    requires Ok(m', n, {}, owed) && Kept(m, m') && Acyclic(m, rank) && id in m'
    requires forall o :: o in m ==> rank(o) <= top
    ensures ReachableIn(m, owed, id, k)
    decreases top - rank(id)
  {
    assert OkAt(m', n, {}, owed, id);
    k := 0;
    if owed[Ref(id)] == 0 && m'[id].rc != MAX {
      var p := HeldFinder(m', n, {}, id);
      k := LiveIsReachable(m, m', n, owed, rank, top, p);
      k := k + 1;
    }
  }

  lemma {:induction false} RankBound(ids: set<Id>, rank: Id -> nat) returns (top: nat)
    ensures forall o :: o in ids ==> rank(o) <= top
    decreases ids
  {
    top := 0;
    if ids != {} {
      var o :| o in ids;
      top := RankBound(ids - {o}, rank);
      top := if rank(o) > top then rank(o) else top;
    }
  }

  lemma LeftIsReachable(m: Objs, m': Objs, n: nat, owed: multiset<Value>, rank: Id -> nat)
    requires Ok(m', n, {}, owed) && Kept(m, m') && Acyclic(m, rank)
    ensures forall id: Id :: id in m' <==> Reachable(m, owed, id)
  {
    hide Ok, Kept, Acyclic;
    var top := RankBound(m.Keys, rank);
    forall id: Id ensures id in m' <==> Reachable(m, owed, id) {
      if id in m' {
        var _ := LiveIsReachable(m, m', n, owed, rank, top, id);
      }
      if Reachable(m, owed, id) {
        var k: nat :| ReachableIn(m, owed, id, k);
        ReachableIsLive(m, m', n, owed, id, k);
      }
    }
  }

  // ---- the simple teardown ----

  // The references in work dropped with a plain worklist, no object before its
  // last reference.
  function Dropped(m: Objs, work: seq<Value>): Objs
    decreases |m.Keys|, |work|
  {
    if work == [] then m
    else
      var v, rest := work[0], work[1..];
      if !v.Ref? || v.id !in m || m[v.id].rc == 0 then Dropped(m, rest)
      else if m[v.id].rc == 1 then
        assert (m - {v.id}).Keys == m.Keys - {v.id};
        Dropped(m - {v.id}, m[v.id].fields + rest)
      else
        assert Released(m, v.id).Keys == m.Keys;
        Dropped(Released(m, v.id), rest)
  }

  lemma {:induction false} DroppedKeeps(m: Objs, n: nat, dying: set<Id>, owed: multiset<Value>, work: seq<Value>)
    requires Ok(m, n, dying, owed + multiset(work))
    ensures Ok(Dropped(m, work), n, dying, owed)
    ensures Kept(m, Dropped(m, work)) && Untouched(m, Dropped(m, work), dying)
    decreases |m.Keys|, |work|
  {
    hide Ok, Kept, Untouched;
    OkAllocated(m, n, dying, owed + multiset(work));
    if work == [] {
      assert owed + multiset(work) == owed;
      KeptRefl(m, dying);
    } else {
      var v, rest := work[0], work[1..];
      assert work == [v] + rest;
      assert owed + multiset(work) == owed + multiset(rest) + multiset{v};
      if !v.Ref? {
        OwedPlain(m, n, dying, owed + multiset(rest), v);
        DroppedKeeps(m, n, dying, owed, rest);
      } else {
        OwedIsLive(m, n, dying, owed + multiset(work), v.id);
        var fields := m[v.id].fields;
        if m[v.id].rc == 1 {
          var m' := m - {v.id};
          UnsharedDies(m, n, dying, owed + multiset(rest), v.id);
          FreeKeeps(m, n, dying + {v.id}, owed + multiset(rest) + multiset(fields), v.id);
          assert dying + {v.id} - {v.id} == dying && m'.Keys == m.Keys - {v.id};
          assert owed + multiset(rest) + multiset(fields) == owed + multiset(fields + rest);
          DroppedKeeps(m', n, dying, owed, fields + rest);
          KeptFree(m, v.id, dying);
          KeptTrans(m, m', Dropped(m', fields + rest), dying);
        } else {
          var m' := Released(m, v.id);
          ReleaseKeeps(m, n, dying, owed + multiset(rest), v.id);
          CountWithinMax(m, n, dying, owed + multiset(work), v.id);
          KeptReleased(m, v.id, dying);
          DroppedKeeps(m', n, dying, owed, rest);
          KeptTrans(m, m', Dropped(m', rest), dying);
        }
      }
    }
  }

  lemma KeptFree(m: Objs, v: Id, dying: set<Id>)
    requires v in m && m[v].rc == 1 && v !in dying && dying <= m.Keys
    ensures Kept(m, m - {v}) && Untouched(m, m - {v}, dying)
  {}

  lemma KeptReleased(m: Objs, v: Id, dying: set<Id>)
    requires v in m && 0 < m[v].rc <= MAX && v !in dying && dying <= m.Keys
    ensures Kept(m, Released(m, v)) && Untouched(m, Released(m, v), dying) && Released(m, v).Keys == m.Keys
  {}

  // Without cycles the counts and the references left determine the heap.
  lemma Determined(m: Objs, a: Objs, b: Objs, n: nat, owed: multiset<Value>, rank: Id -> nat)
    requires Ok(a, n, {}, owed) && Ok(b, n, {}, owed) && Kept(m, a) && Kept(m, b) && Acyclic(m, rank)
    ensures a == b
  {
    LeftIsReachable(m, a, n, owed, rank);
    LeftIsReachable(m, b, n, owed, rank);
    hide Acyclic, Reachable;
    assert a.Keys == b.Keys;
    forall id: Id | id in a ensures a[id] == b[id] {
      assert OkAt(a, n, {}, owed, id) && OkAt(b, n, {}, owed, id);
      HeldExcept(a, {}, b, {}, n, 0, id);
    }
  }

  // A dying child with children, waiting to be looped to.
  predicate Deferred(m: Objs, next: Value) {
    next.Ref? && next.id in m && m[next.id].rc != MAX && HasChildren(m[next.id].kind)
  }

  // The field x was its object's dying child and was torn down by recursion.
  ghost predicate Recursed(m: Objs, m': Objs, x: Value, pending: Value, loops: bool) {
    && x.Ref? && x.id in m && x.id !in m' && !IsLeaf(m[x.id].kind)
    && !(loops && pending == Null && HasChildren(m[x.id].kind))
  }

  ghost function NextId(next: Value): set<Id> { if next.Ref? then {next.id} else {} }

  ghost function NextFields(m: Objs, next: Value): multiset<Value>
    requires next.Ref? ==> next.id in m
  {
    if next.Ref? then multiset(m[next.id].fields) else multiset{}
  }

  // NULL and immediates carry no references.
  lemma OwedPlain(m: Objs, n: nat, dying: set<Id>, owed: multiset<Value>, v: Value)
    requires !v.Ref?
    ensures Ok(m, n, dying, owed + multiset{v}) <==> Ok(m, n, dying, owed)
  {
    forall x: Id ensures OkAt(m, n, dying, owed + multiset{v}, x) <==> OkAt(m, n, dying, owed, x) {}
  }
}
