/** The order in which a collection query returns documents. Ids grow with
    insertion time, so "insertion order" is ascending id and
    `sort({ createdAt: -1 })` is descending id. */
module Listing {
  import opened Common

  ghost predicate Increasing(ks: seq<Id>) {
    forall i, j :: 0 <= i < j < |ks| ==> ks[i] < ks[j]
  }

  ghost predicate Decreasing(ks: seq<Id>) {
    forall i, j :: 0 <= i < j < |ks| ==> ks[i] > ks[j]
  }

  /** The ids below `n` of the documents satisfying `p`, oldest first. */
  function OldestFirst<V>(m: map<Id, V>, n: nat, p: V -> bool): (ks: seq<Id>)
    ensures forall i :: 0 <= i < |ks| ==> ks[i] < n && ks[i] in m && p(m[ks[i]])
    ensures forall k :: k < n && k in m && p(m[k]) ==> k in ks
    ensures Increasing(ks)
  {
    if n == 0 then []
    else OldestFirst(m, n - 1, p) + (if n - 1 in m && p(m[n - 1]) then [n - 1] else [])
  }

  /** The ids below `n` of the documents satisfying `p`, newest first. */
  function NewestFirst<V>(m: map<Id, V>, n: nat, p: V -> bool): (ks: seq<Id>)
    ensures forall i :: 0 <= i < |ks| ==> ks[i] < n && ks[i] in m && p(m[ks[i]])
    ensures forall k :: k < n && k in m && p(m[k]) ==> k in ks
    ensures Decreasing(ks)
  {
    if n == 0 then []
    else (if n - 1 in m && p(m[n - 1]) then [n - 1] else []) + NewestFirst(m, n - 1, p)
  }

  /** The ids below `n` satisfying `p`, then those satisfying `q` but not
      `p`, each group oldest first: two finders' results with the repeats
      dropped. */
  function OldestFirstGrouped<V>(m: map<Id, V>, n: nat, p: V -> bool, q: V -> bool): (ks: seq<Id>)
    ensures forall i :: 0 <= i < |ks| ==> ks[i] < n && ks[i] in m && (p(m[ks[i]]) || q(m[ks[i]]))
    ensures forall k :: k < n && k in m && (p(m[k]) || q(m[k])) ==> k in ks
    ensures forall i, j :: 0 <= i < j < |ks| && p(m[ks[j]]) ==> p(m[ks[i]])
    ensures forall i, j :: 0 <= i < j < |ks| && p(m[ks[i]]) == p(m[ks[j]]) ==> ks[i] < ks[j]
  {
    var first := OldestFirst(m, n, p);
    var rest := OldestFirst(m, n, (v: V) => q(v) && !p(v));
    var ks := first + rest;
    forall i | 0 <= i < |ks|
      ensures (i < |first| ==> ks[i] == first[i]) && (i >= |first| ==> ks[i] == rest[i - |first|])
    {
    }
    forall k | k < n && k in m && (p(m[k]) || q(m[k])) ensures k in ks {
      if p(m[k]) { assert k in first; } else { assert k in rest; }
    }
    ks
  }

  /** Where a listed key sits in the oldest-first list. */
  lemma OldestFirstIndex<V>(m: map<Id, V>, n: nat, p: V -> bool, k: Id) returns (i: nat)
    requires k < n && k in m && p(m[k])
    ensures i < |OldestFirst(m, n, p)| && OldestFirst(m, n, p)[i] == k
  {
    var ks := OldestFirst(m, n, p);
    i :| 0 <= i < |ks| && ks[i] == k;
  }

  /** `findOne(filter)` without a sort: the oldest document below `n` that
      satisfies `p`, if there is one. */
  function FirstOf<V>(m: map<Id, V>, n: nat, p: V -> bool): (r: Option<Id>)
    ensures r.Some? ==> r.value < n && r.value in m && p(m[r.value])
    ensures r.Some? ==> forall k :: k < r.value && k in m ==> !p(m[k])
    ensures r.None? ==> forall k :: k < n && k in m ==> !p(m[k])
  {
    if n == 0 then None
    else match FirstOf(m, n - 1, p)
      case Some(k) => Some(k)
      case None => if n - 1 in m && p(m[n - 1]) then Some(n - 1) else None
  }

  /** `docs.map(...)`: the view `f` of each listed document, in list order. */
  function Project<V, W>(m: map<Id, V>, ks: seq<Id>, f: (Id, V) -> W): (r: seq<W>)
    requires forall i :: 0 <= i < |ks| ==> ks[i] in m
    ensures |r| == |ks|
    ensures forall i :: 0 <= i < |ks| ==> r[i] == f(ks[i], m[ks[i]])
    ensures forall k :: k in ks ==> f(k, m[k]) in r
  {
    if ks == [] then [] else [f(ks[0], m[ks[0]])] + Project(m, ks[1..], f)
  }

  /** A key at position `i` of `ks1` and at position `j` of `ks2` is projected
      at two places of the projection of `ks1 + ks2`. */
  lemma ProjectListsTwice<V, W>(m: map<Id, V>, ks1: seq<Id>, ks2: seq<Id>, f: (Id, V) -> W, i: nat, j: nat)
    requires forall x :: 0 <= x < |ks1| ==> ks1[x] in m
    requires forall x :: 0 <= x < |ks2| ==> ks2[x] in m
    requires i < |ks1| && j < |ks2|
    ensures |ks1| + j < |Project(m, ks1 + ks2, f)|
    ensures Project(m, ks1 + ks2, f)[i] == f(ks1[i], m[ks1[i]])
    ensures Project(m, ks1 + ks2, f)[|ks1| + j] == f(ks2[j], m[ks2[j]])
  {
    var ks := ks1 + ks2;
    assert ks[i] == ks1[i] && ks[|ks1| + j] == ks2[j];
  }
}
