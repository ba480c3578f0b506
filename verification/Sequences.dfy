// Sums and unions over message queues, and sequences that are partly overwritten.

module Sequences {

  function Sum<T>(q: seq<T>, weight: T -> nat): nat {
    if q == [] then 0 else weight(q[0]) + Sum(q[1..], weight)
  }

  lemma {:induction false} SumOfConcat<T>(q: seq<T>, r: seq<T>, weight: T -> nat)
    ensures Sum(q + r, weight) == Sum(q, weight) + Sum(r, weight)
  {
    if q == [] {
      assert q + r == r;
    } else {
      SumOfConcat(q[1..], r, weight);
      assert (q + r)[1..] == q[1..] + r;
    }
  }

  lemma SumOfAppend<T>(q: seq<T>, x: T, weight: T -> nat)
    ensures Sum(q + [x], weight) == Sum(q, weight) + weight(x)
  {
    SumOfConcat(q, [x], weight);
    assert [x][1..] == [];
  }

  function Union<T>(q: seq<T>, items: T -> multiset<nat>): multiset<nat> {
    if q == [] then multiset{} else items(q[0]) + Union(q[1..], items)
  }

  lemma {:induction false} UnionOfConcat<T>(q: seq<T>, r: seq<T>, items: T -> multiset<nat>)
    ensures Union(q + r, items) == Union(q, items) + Union(r, items)
  {
    if q == [] {
      assert q + r == r;
    } else {
      UnionOfConcat(q[1..], r, items);
      assert (q + r)[1..] == q[1..] + r;
    }
  }

  lemma UnionOfAppend<T>(q: seq<T>, x: T, items: T -> multiset<nat>)
    ensures Union(q + [x], items) == Union(q, items) + items(x)
  {
    UnionOfConcat(q, [x], items);
    assert [x][1..] == [];
  }

  /** The data with the source written over it at the offset. */
  function Patched<T>(data: seq<T>, offset: nat, source: seq<T>): seq<T>
    requires offset + |source| <= |data|
  {
    data[..offset] + source + data[offset + |source|..]
  }

  lemma IsPatched<T>(data: seq<T>, offset: nat, source: seq<T>, result: seq<T>)
    requires offset + |source| <= |data| && |result| == |data|
    requires forall j {:trigger result[j]} :: 0 <= j < |data| ==>
               result[j] == if offset <= j < offset + |source| then source[j - offset] else data[j]
    ensures result == Patched(data, offset, source)
  {
  }

  /** What is appended does not change what comes before. */
  lemma SliceBefore<T>(data: seq<T>, tail: seq<T>, from: nat, to: nat)
    requires from <= to <= |data|
    ensures (data + tail)[from..to] == data[from..to]
  {
  }

}
