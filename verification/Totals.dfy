/** Sequences without duplicates, sums over sequences, and what a series of writes took. */
module Totals {

  ghost predicate Distinct<T>(s: seq<T>) {
    forall i, j :: 0 <= i < j < |s| ==> s[i] != s[j]
  }

  /** All that the elements of `s` hold, counted with multiplicity. */
  function Union<T>(s: seq<T>, f: T -> multiset<nat>): multiset<nat> {
    if s == [] then multiset{} else Union(s[..|s| - 1], f) + f(s[|s| - 1])
  }

  lemma UnionPush<T>(s: seq<T>, t: T, f: T -> multiset<nat>)
    ensures Union(s + [t], f) == Union(s, f) + f(t)
  {}

  lemma {:induction false} UnionUpdate<T>(s: seq<T>, i: nat, t: T, f: T -> multiset<nat>)
    requires i < |s|
    ensures Union(s[i := t], f) + f(s[i]) == Union(s, f) + f(t)
    decreases |s|
  {
    var n, r := |s| - 1, s[i := t];
    if i == n {
      assert r[..n] == s[..n] && r[n] == t;
    } else {
      UnionUpdate(s[..n], i, t, f);
      assert r[..n] == s[..n][i := t] && r[n] == s[n];
      assert Union(r, f) + f(s[i]) == (Union(r[..n], f) + f(s[i])) + f(s[n]);
      assert Union(s, f) + f(t) == (Union(s[..n], f) + f(t)) + f(s[n]);
    }
  }

  lemma {:induction false} UnionHas<T>(s: seq<T>, i: nat, f: T -> multiset<nat>)
    requires i < |s|
    ensures f(s[i]) <= Union(s, f)
    decreases |s|
  {
    if i < |s| - 1 { UnionHas(s[..|s| - 1], i, f); }
  }

  lemma {:induction false} UnionHasTwo<T>(s: seq<T>, i: nat, j: nat, f: T -> multiset<nat>)
    requires i < j < |s|
    ensures f(s[i]) + f(s[j]) <= Union(s, f)
    decreases |s|
  {
    if j < |s| - 1 { UnionHasTwo(s[..|s| - 1], i, j, f); } else { UnionHas(s[..j], i, f); }
  }

  function Sum<T>(s: seq<T>, f: T -> nat): nat {
    if s == [] then 0 else Sum(s[..|s| - 1], f) + f(s[|s| - 1])
  }

  lemma {:induction false} SumUpdate<T>(s: seq<T>, i: nat, t: T, f: T -> nat)
    requires i < |s|
    ensures Sum(s[i := t], f) + f(s[i]) == Sum(s, f) + f(t)
    decreases |s|
  {
    var n := |s| - 1;
    if i == n {
      assert s[i := t][..n] == s[..n];
    } else {
      SumUpdate(s[..n], i, t, f);
      assert s[i := t][..n] == s[..n][i := t];
    }
  }

  // ---------- a series of writes ----------

  /** How much the operations with these results took in all; a failed one takes nothing. */
  function Taken(results: seq<int>): nat {
    if results == [] then 0 else
    Taken(results[..|results| - 1]) + if results[|results| - 1] > 0 then results[|results| - 1] else 0
  }

  lemma NothingTaken()
    ensures Taken([]) == 0
  {}

  lemma TakenPush(results: seq<int>, w: int)
    ensures Taken(results + [w]) == Taken(results) + if w > 0 then w else 0
    ensures forall i :: 0 <= i <= |results| ==> (results + [w])[..i] == results[..i]
  {}
}
