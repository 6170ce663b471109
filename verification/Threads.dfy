// What the protocols of several threads share: locks, and totals over the
// threads.
module Threads {

  type Tid = nat

  datatype Option<T> = None | Some(value: T)

  // Who holds a lock.
  datatype Holder = Free | Held(owner: Tid)

  function One(r: nat, v: nat): nat { if r == v then 1 else 0 }

  function Sum<T>(f: T -> nat, xs: seq<T>): nat {
    if xs == [] then 0 else f(xs[0]) + Sum(f, xs[1..])
  }

  // Replacing one element changes the total by its share.
  lemma {:induction false} SumAt<T>(f: T -> nat, xs: seq<T>, i: nat, x: T)
    requires i < |xs|
    ensures Sum(f, xs[i := x]) + f(xs[i]) == Sum(f, xs) + f(x)
    ensures f(xs[i]) <= Sum(f, xs)
  {
    if i == 0 {
      assert xs[i := x][1..] == xs[1..];
    } else {
      assert xs[i := x][1..] == xs[1..][i - 1 := x];
      SumAt(f, xs[1..], i - 1, x);
    }
  }

  lemma {:induction false} SumZero<T>(f: T -> nat, xs: seq<T>)
    requires forall i :: 0 <= i < |xs| ==> f(xs[i]) == 0
    ensures Sum(f, xs) == 0
  {
    if xs != [] { SumZero(f, xs[1..]); }
  }

  // A total is at least the size of a set of indices that each add one.
  lemma {:induction false} SumCovers<T>(f: T -> nat, xs: seq<T>, zero: T, ids: set<nat>)
    requires f(zero) == 0 && forall i :: i in ids ==> i < |xs| && f(xs[i]) > 0
    ensures |ids| <= Sum(f, xs)
    decreases ids
  {
    if ids != {} {
      var i :| i in ids;
      SumAt(f, xs, i, zero);
      SumCovers(f, xs[i := zero], zero, ids - {i});
    }
  }

  // Outside a smaller set of indices something adds to the total.
  lemma {:induction false} SumExceeds<T>(f: T -> nat, xs: seq<T>, zero: T, ids: set<nat>) returns (u: nat)
    requires f(zero) == 0 && (forall i :: 0 <= i < |xs| ==> f(xs[i]) <= 1) && Sum(f, xs) > |ids|
    ensures u < |xs| && u !in ids && f(xs[u]) > 0
    decreases ids
  {
    if ids == {} {
      u := Contributor(f, xs);
    } else {
      var i :| i in ids;
      if i < |xs| {
        SumAt(f, xs, i, zero);
        u := SumExceeds(f, xs[i := zero], zero, ids - {i});
      } else {
        u := SumExceeds(f, xs, zero, ids - {i});
      }
    }
  }

  lemma {:induction false} Contributor<T>(f: T -> nat, xs: seq<T>) returns (u: nat)
    requires Sum(f, xs) > 0
    ensures u < |xs| && f(xs[u]) > 0
  {
    if f(xs[0]) > 0 { u := 0; } else { u := Contributor(f, xs[1..]); u := u + 1; }
  }
}
