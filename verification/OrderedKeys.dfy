// Positions in an ordered map: an iterator is the key it stands at, None at the end.

module OrderedKeys {
  import opened Options

  predicate IsLeast(m: nat, s: set<nat>) {
    m in s && forall k :: k in s ==> m <= k
  }

  predicate IsGreatest(m: nat, s: set<nat>) {
    m in s && forall k :: k in s ==> m >= k
  }

  lemma {:induction false} FindLeast(s: set<nat>) returns (m: nat)
    requires s != {}
    ensures IsLeast(m, s)
    decreases |s|
  {
    m :| m in s;
    var rest := s - {m};
    if rest != {} {
      var other := FindLeast(rest);
      m := if m < other then m else other;
    }
    assert forall k :: k in s ==> k in rest || m <= k;
  }

  lemma {:induction false} FindGreatest(s: set<nat>) returns (m: nat)
    requires s != {}
    ensures IsGreatest(m, s)
    decreases |s|
  {
    m :| m in s;
    var rest := s - {m};
    if rest != {} {
      var other := FindGreatest(rest);
      m := if m > other then m else other;
    }
    assert forall k :: k in s ==> k in rest || m >= k;
  }

  lemma HasLeast(s: set<nat>)
    requires s != {}
    ensures exists m :: m in s && IsLeast(m, s)
  {
    var m := FindLeast(s);
  }

  function Least(s: set<nat>): (m: nat)
    requires s != {}
    ensures IsLeast(m, s)
  {
    HasLeast(s);
    var m :| m in s && IsLeast(m, s);
    m
  }

  lemma HasGreatest(s: set<nat>)
    requires s != {}
    ensures exists m :: m in s && IsGreatest(m, s)
  {
    var m := FindGreatest(s);
  }

  function Greatest(s: set<nat>): (m: nat)
    requires s != {}
    ensures IsGreatest(m, s)
  {
    HasGreatest(s);
    var m :| m in s && IsGreatest(m, s);
    m
  }

  /** The first key not below p. */
  function LowerBound(keys: set<nat>, p: nat): (k: Option<nat>)
    ensures k.Some? ==> k.value in keys && k.value >= p && forall i :: i in keys && i >= p ==> i >= k.value
    ensures k.None? ==> forall i :: i in keys ==> i < p
  {
    var above := set i | i in keys && i >= p;
    assert forall i :: i in keys && i >= p ==> i in above;
    if above == {} then None else Some(Least(above))
  }

  /** The last key before an iterator. */
  function Before(keys: set<nat>, iter: Option<nat>): (k: Option<nat>)
    ensures k.Some? ==> k.value in keys && (iter.Some? ==> k.value < iter.value)
    ensures forall i :: i in keys && (iter.Some? ==> i < iter.value) ==> k.Some? && i <= k.value
  {
    var below := set i | i in keys && (iter.Some? ==> i < iter.value);
    assert forall i :: i in keys && (iter.Some? ==> i < iter.value) ==> i in below;
    if below == {} then None else Some(Greatest(below))
  }

  /** The largest key not above p. */
  function FloorKey(keys: set<nat>, p: nat): (k: Option<nat>)
    ensures k.Some? ==> k.value in keys && k.value <= p && forall i :: k.value < i <= p ==> i !in keys
    ensures k.None? ==> forall i :: 0 <= i <= p ==> i !in keys
  {
    Before(keys, Some(p + 1))
  }
}
