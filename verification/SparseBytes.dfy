// SparseByteBuffer: the holes and regions of a partly filled buffer.

module SparseBytes {
  import opened Bytes
  import opened Options
  import opened OrderedKeys

  // ----- extents: sizes by position

  predicate At(m: map<nat, nat>, k: nat, p: nat) {
    k in m && k <= p < k + m[k]
  }

  ghost predicate Covers(m: map<nat, nat>, p: nat) {
    exists k :: At(m, k, p)
  }

  /** Extents are not empty and do not overlap. */
  ghost predicate Disjoint(m: map<nat, nat>) {
    && (forall k :: k in m ==> m[k] > 0)
    && (forall j, k :: j in m && k in m && j < k ==> j + m[j] <= k)
  }

  function Extents(regions: map<nat, seq<byte>>): map<nat, nat> {
    map k | k in regions :: |regions[k]|
  }

  /** Holes and regions are disjoint and share out [0, size) between them. */
  ghost predicate Partition(holes: map<nat, nat>, regions: map<nat, nat>, size: nat) {
    && Disjoint(holes) && Disjoint(regions)
    && (forall p: nat :: Covers(holes, p) ==> p < size)
    && (forall p: nat :: Covers(regions, p) ==> p < size)
    && (forall p: nat :: 0 <= p < size ==> (Covers(holes, p) <==> !Covers(regions, p)))
  }

  // ----- searching

  /** k is the extent that covers p, or there is none. */
  ghost predicate Right(m: map<nat, nat>, p: nat, k: Option<nat>) {
    if k.Some? then At(m, k.value, p) else !Covers(m, p)
  }

  predicate IsIterator(m: map<nat, nat>, k: Option<nat>) {
    k.Some? ==> k.value in m
  }

  function RegionSearch(m: map<nat, nat>, position: nat): (iter: Option<nat>)
    ensures IsIterator(m, iter)
  {
    var iter := LowerBound(m.Keys, position);
    if iter != LowerBound(m.Keys, 0) && (iter.None? || iter.value > position) then
      var before := Before(m.Keys, iter);
      if before.Some? && before.value + m[before.value] <= position then None else before
    else iter
  }

  /** Tries the hint and the region after it before searching. */
  function FindRegion(m: map<nat, nat>, position: nat, hint: Option<nat>): (iter: Option<nat>)
    requires IsIterator(m, hint)
    ensures IsIterator(m, iter)
  {
    if hint.Some? && hint.value <= position then
      if hint.value + m[hint.value] <= position then
        var next := LowerBound(m.Keys, hint.value + 1);
        if next.Some? && At(m, next.value, position) then next else RegionSearch(m, position)
      else hint
    else RegionSearch(m, position)
  }

  function FindHole(m: map<nat, nat>, position: nat): (iter: Option<nat>)
    ensures IsIterator(m, iter)
  {
    var iter := LowerBound(m.Keys, position);
    if iter != LowerBound(m.Keys, 0) && (iter.None? || iter.value > position) then
      var before := Before(m.Keys, iter);
      if before.Some? && before.value + m[before.value] < position then None else before
    else iter
  }

  /** Some extent begins at the position or before it. */
  predicate SomeAtOrBefore(m: map<nat, nat>, position: nat) {
    exists k :: k in m && k <= position
  }

  /** The last extent that begins at the position or before it is the only one that may cover the position. */
  lemma LastDecides(m: map<nat, nat>, k: nat, p: nat)
    requires Disjoint(m) && k in m && k <= p && forall i :: i in m && i <= p ==> i <= k
    ensures Covers(m, p) <==> p < k + m[k]
  {
    if p < k + m[k] {
      assert At(m, k, p);
    }
    forall i: nat | At(m, i, p)
      ensures p < k + m[k]
    {
      assert i < k ==> i + m[i] <= k;
    }
  }

  /** Where the search goes once there is an extent at the position or before it. */
  lemma SearchSteps(m: map<nat, nat>, p: nat)
    requires SomeAtOrBefore(m, p)
    ensures var iter := LowerBound(m.Keys, p);
            if p in m then iter == Some(p)
            else
              && iter != LowerBound(m.Keys, 0) && (iter.None? || iter.value > p)
              && Before(m.Keys, iter) == FloorKey(m.Keys, p) && FloorKey(m.Keys, p).Some?
  {
    var k :| k in m && k <= p;
    var iter, begin := LowerBound(m.Keys, p), LowerBound(m.Keys, 0);
    assert begin.Some? && begin.value <= k;
    if p !in m {
      var b, f := Before(m.Keys, iter), FloorKey(m.Keys, p);
      assert b.Some? && f.Some? && k <= b.value && k <= f.value;
      assert b.value <= p;
      assert f.value <= b.value && b.value <= f.value;
    }
  }

  /** Without an extent at the position or before it, the search stops at the first one, if any. */
  lemma SearchStaysAtFirst(m: map<nat, nat>, p: nat)
    requires !SomeAtOrBefore(m, p)
    ensures LowerBound(m.Keys, p) == LowerBound(m.Keys, 0)
    ensures LowerBound(m.Keys, 0).None? <==> m == map[]
    ensures LowerBound(m.Keys, 0).Some? ==> LowerBound(m.Keys, 0).value > p
  {
    var a, b := LowerBound(m.Keys, p), LowerBound(m.Keys, 0);
    if a.Some? {
      assert b.Some? && a.value in m && b.value in m;
      assert !(b.value <= p);
    }
  }

  lemma RegionSearchRight(m: map<nat, nat>, position: nat)
    requires Disjoint(m)
    ensures Right(m, position, RegionSearch(m, position)) <==> m == map[] || SomeAtOrBefore(m, position)
  {
    if SomeAtOrBefore(m, position) {
      SearchSteps(m, position);
      LastDecides(m, FloorKey(m.Keys, position).value, position);
    } else {
      SearchStaysAtFirst(m, position);
    }
  }

  /**
   * A lookup finds the region that covers the position, or that there is none, exactly when there
   * are no regions or one begins at the position or before it. Otherwise it returns the first region.
   */
  lemma RegionLookupRight(m: map<nat, nat>, position: nat, hint: Option<nat>)
    requires Disjoint(m) && IsIterator(m, hint)
    ensures Right(m, position, FindRegion(m, position, hint)) <==> m == map[] || SomeAtOrBefore(m, position)
  {
    RegionSearchRight(m, position);
  }

  /** A region that begins after the position cannot be the right answer. */
  lemma EarlyLookupMisses(m: map<nat, nat>, position: nat, hint: Option<nat>)
    requires Disjoint(m) && IsIterator(m, hint) && m != map[] && !SomeAtOrBefore(m, position)
    ensures var r := FindRegion(m, position, hint);
            r.Some? && r.value > position && forall k :: k in m ==> r.value <= k
  {
    SearchStaysAtFirst(m, position);
    if hint.Some? {
      assert hint.value > position;
    }
  }

  /** Every lookup below the size is right exactly when nothing is cached or the first byte is. */
  lemma AllLookupsRight(m: map<nat, nat>, size: nat)
    requires Disjoint(m) && size > 0
    ensures (forall p: nat, hint :: p < size && IsIterator(m, hint) ==> Right(m, p, FindRegion(m, p, hint)))
            <==> m == map[] || 0 in m
  {
    if m == map[] || 0 in m {
      forall p: nat, hint | p < size && IsIterator(m, hint)
        ensures Right(m, p, FindRegion(m, p, hint))
      {
        assert 0 in m ==> SomeAtOrBefore(m, p);
        RegionLookupRight(m, p, hint);
      }
    } else {
      RegionLookupRight(m, 0, None);
      assert !Right(m, 0, FindRegion(m, 0, None));
    }
  }

  /** Some extent ends exactly at the position. */
  predicate EndsAt(m: map<nat, nat>, position: nat) {
    exists k :: k in m && k + m[k] == position
  }

  /**
   * Looking for a hole is right for the positions in a hole; elsewhere exactly when there are no
   * holes, or one begins before the position and none ends exactly there.
   */
  lemma HoleLookupRight(m: map<nat, nat>, position: nat)
    requires Disjoint(m)
    ensures Right(m, position, FindHole(m, position)) <==>
              m == map[] || Covers(m, position) || (SomeAtOrBefore(m, position) && !EndsAt(m, position))
  {
    if SomeAtOrBefore(m, position) {
      SearchSteps(m, position);
      var k := FloorKey(m.Keys, position).value;
      LastDecides(m, k, position);
      if position !in m {
        EndsAtLast(m, k, position);
      } else {
        assert At(m, position, position);
      }
    } else {
      SearchStaysAtFirst(m, position);
    }
  }

  lemma EndsAtLast(m: map<nat, nat>, k: nat, p: nat)
    requires Disjoint(m) && k in m && k < p && forall i :: i in m && i <= p ==> i <= k
    ensures EndsAt(m, p) <==> k + m[k] == p
  {
    assert forall i :: i in m && i < k ==> i + m[i] <= k;
  }

  lemma HoleFound(m: map<nat, nat>, position: nat)
    requires Disjoint(m) && Covers(m, position)
    ensures FindHole(m, position).Some? && At(m, FindHole(m, position).value, position)
  {
    HoleLookupRight(m, position);
  }

  // ----- changing holes

  /** The hole at k cut in two at p. */
  function Split(m: map<nat, nat>, k: nat, p: nat): map<nat, nat>
    requires k in m && k < p < k + m[k]
  {
    m[k := p - k][p := k + m[k] - p]
  }

  lemma SplitKeeps(m: map<nat, nat>, k: nat, p: nat)
    requires Disjoint(m) && k in m && k < p < k + m[k]
    ensures var n := Split(m, k, p);
            Disjoint(n) && n.Keys == m.Keys + {p} && forall q: nat :: Covers(n, q) <==> Covers(m, q)
  {
    var n := Split(m, k, p);
    assert p !in m;
    forall i, j | i in n && j in n && i < j
      ensures i + n[i] <= j
    {
      if i in m && j in m {
        assert i + m[i] <= j;
      } else if i in m {
        assert i < k ==> i + m[i] <= k;
      } else {
        assert j in m && j > k;
        assert k + m[k] <= j;
      }
    }
    forall q: nat
      ensures Covers(n, q) <==> Covers(m, q)
    {
      if Covers(n, q) {
        var i: nat :| At(n, i, q);
        assert At(m, if i == p then k else i, q);
      }
      if Covers(m, q) {
        var i: nat :| At(m, i, q);
        assert At(n, if i == k && q >= p then p else i, q);
      }
    }
  }

  /** What is left when n bytes are taken off the front of the hole at k. */
  function Fillable(m: map<nat, nat>, k: nat, n: nat): map<nat, nat>
    requires k in m && 0 < n <= m[k]
  {
    if n < m[k] then m[k + n := m[k] - n] - {k} else m - {k}
  }

  lemma FillableKeeps(m: map<nat, nat>, k: nat, n: nat)
    requires Disjoint(m) && k in m && 0 < n <= m[k]
    ensures var h := Fillable(m, k, n);
            Disjoint(h) && forall q: nat :: Covers(h, q) <==> Covers(m, q) && !(k <= q < k + n)
  {
    var h := Fillable(m, k, n);
    forall i, j | i in h && j in h && i < j
      ensures i + h[i] <= j
    {
      if i in m && j in m {
        assert i + m[i] <= j;
      } else if i in m {
        assert i != k;
        assert i < k ==> i + m[i] <= k;
      } else {
        assert j in m && j > k;
        assert k + m[k] <= j;
      }
    }
    forall q: nat
      ensures Covers(h, q) <==> Covers(m, q) && !(k <= q < k + n)
    {
      FillableCovers(m, k, n, q);
    }
  }

  lemma FillableCovers(m: map<nat, nat>, k: nat, n: nat, q: nat)
    requires Disjoint(m) && k in m && 0 < n <= m[k]
    ensures Covers(Fillable(m, k, n), q) <==> Covers(m, q) && !(k <= q < k + n)
  {
    var h := Fillable(m, k, n);
    if Covers(h, q) {
      var i: nat :| At(h, i, q);
      if i == k + n && n < m[k] {
        assert At(m, k, q);
      } else {
        assert At(m, i, q);
        assert i < k ==> i + m[i] <= k;
        assert i > k ==> k + m[k] <= i;
      }
    }
    if Covers(m, q) && !(k <= q < k + n) {
      var i: nat :| At(m, i, q);
      assert At(h, if i == k then k + n else i, q);
    }
  }

  /** The byte after a hole that is itself missing begins the next hole. */
  lemma NextAdjacent(m: map<nat, nat>, k: nat)
    requires Disjoint(m) && k in m && Covers(m, k + m[k])
    ensures k + m[k] in m && LowerBound(m.Keys, k + 1) == Some(k + m[k])
  {
    var p := k + m[k];
    var i: nat :| At(m, i, p);
    assert forall j :: j in m && j < k ==> j + m[j] <= k;
    assert i > k;
    var next := LowerBound(m.Keys, k + 1);
    assert next.Some? && next.value <= p;
    assert k + m[k] <= next.value;
  }

  /** The first key not below p, or else the first one: the next hole in the wraparound sense. */
  function NextWrapped(keys: set<nat>, p: nat): Option<nat> {
    if LowerBound(keys, p).Some? then LowerBound(keys, p) else LowerBound(keys, 0)
  }

  // ----- filling and the partition

  lemma PartitionSame(holes: map<nat, nat>, holes': map<nat, nat>, regions: map<nat, nat>, size: nat)
    requires Partition(holes, regions, size) && Disjoint(holes')
    requires forall q: nat :: Covers(holes', q) <==> Covers(holes, q)
    ensures Partition(holes', regions, size)
  {
  }

  lemma PartitionFilled(holes: map<nat, nat>, regions: map<nat, nat>, size: nat, holes': map<nat, nat>, k: nat, n: nat)
    requires Partition(holes, regions, size) && Disjoint(holes') && n > 0
    requires forall q: nat :: k <= q < k + n ==> Covers(holes, q)
    requires forall q: nat :: Covers(holes', q) <==> Covers(holes, q) && !(k <= q < k + n)
    ensures k !in regions && Partition(holes', regions[k := n], size)
  {
    var r := regions[k := n];
    assert Covers(holes, k) && Covers(holes, k + n - 1);
    forall j | j in regions
      ensures j != k && (j < k ==> j + regions[j] <= k) && (k < j ==> k + n <= j)
    {
      assert At(regions, j, j) && Covers(regions, j);
      assert At(regions, j, k) ==> Covers(regions, k);
    }
    forall q: nat
      ensures Covers(r, q) <==> Covers(regions, q) || k <= q < k + n
    {
      if Covers(r, q) {
        var i: nat :| At(r, i, q);
        assert i != k ==> At(regions, i, q);
      }
      if Covers(regions, q) {
        var i: nat :| At(regions, i, q);
        assert At(r, i, q);
      }
      assert k <= q < k + n ==> At(r, k, q);
    }
  }

  /** When the first region is filled, all lookups are right from then on exactly if it is the beginning. */
  lemma FirstFillDecides(k: nat, n: nat, size: nat)
    requires n > 0 && size > 0
    ensures (forall p: nat, hint ::
               p < size && IsIterator(map[k := n], hint) ==> Right(map[k := n], p, FindRegion(map[k := n], p, hint)))
            <==> k == 0
  {
    AllLookupsRight(map[k := n], size);
    assert k in map[k := n];
  }

  class SparseByteBuffer {
    var size: nat
    var holes: map<nat, nat>
    var regions: map<nat, seq<byte>>

    ghost predicate Valid()
      reads this
    {
      size > 0 && Partition(holes, Extents(regions), size)
    }

    /** One hole spans the whole buffer. */
    constructor (n: nat)
      requires n > 0
      ensures Valid() && size == n && regions == map[] && holes == map[0 := n]
    {
      size, holes, regions := n, map[0 := n], map[];
      new;
      forall p: nat | p < n
        ensures Covers(holes, p)
      {
        assert At(holes, 0, p);
      }
    }

    /** Finds the region containing the position, if there is one. */
    method FindRegionContaining(position: nat, hint: Option<nat>) returns (region: Option<nat>)
      requires Valid() && IsIterator(Extents(regions), hint)
      ensures IsIterator(Extents(regions), region) && region == FindRegion(Extents(regions), position, hint)
      ensures Right(Extents(regions), position, region) <==>
                regions == map[] || SomeAtOrBefore(Extents(regions), position)
    {
      RegionLookupRight(Extents(regions), position, hint);
      assert regions == map[] <==> Extents(regions) == map[];
      assert regions.Keys == Extents(regions).Keys;
      var iter := hint;
      if iter.Some? && iter.value <= position {
        if iter.value + |regions[iter.value]| <= position {
          iter := LowerBound(regions.Keys, iter.value + 1);
          if iter.Some? && iter.value <= position < iter.value + |regions[iter.value]| {
            return iter;
          }
        } else if position < iter.value + |regions[iter.value]| {
          return iter;
        }
      }
      iter := LowerBound(regions.Keys, position);
      if iter != LowerBound(regions.Keys, 0) && (iter.None? || iter.value > position) {
        iter := Before(regions.Keys, iter);
        if iter.Some? && iter.value + |regions[iter.value]| <= position {
          iter := None;
        }
      }
      return iter;
    }

    /** Finds the hole containing the position; for a position in no hole it may also find one that ends there. */
    method FindHoleContaining(position: nat) returns (hole: Option<nat>)
      requires Valid()
      ensures IsIterator(holes, hole) && hole == FindHole(holes, position)
      ensures Covers(holes, position) ==> hole.Some? && At(holes, hole.value, position)
    {
      if Covers(holes, position) {
        HoleFound(holes, position);
      }
      var iter := LowerBound(holes.Keys, position);
      if iter != LowerBound(holes.Keys, 0) && (iter.None? || iter.value > position) {
        iter := Before(holes.Keys, iter);
        if iter.Some? && iter.value + holes[iter.value] < position {
          iter := None;
        }
      }
      return iter;
    }

    /** Cuts the hole at k in two. */
    method SplitHole(k: nat, position: nat)
      requires Valid() && k in holes && k < position < k + holes[k]
      modifies `holes
      ensures Valid() && holes == Split(old(holes), k, position) && holes.Keys == old(holes.Keys) + {position}
      ensures forall q: nat :: Covers(holes, q) <==> old(Covers(holes, q))
    {
      ghost var was := holes;
      var frontSize := position - k;
      var backSize := holes[k] - frontSize;
      holes := holes[k := frontSize];
      holes := holes[position := backSize];
      SplitKeeps(was, k, position);
      PartitionSame(was, holes, Extents(regions), size);
    }

    /** Makes sure that a hole begins at a missing position; no byte changes sides and no other hole goes. */
    method FindOrCreateHole(position: nat, hint: Option<nat>) returns (hole: Option<nat>)
      requires Valid() && IsIterator(holes, hint) && Covers(holes, position)
      modifies `holes
      ensures Valid() && hole == Some(position)
      ensures holes.Keys == old(holes.Keys) + {position}
      ensures forall q: nat :: Covers(holes, q) <==> old(Covers(holes, q))
    {
      ghost var some: nat :| At(holes, some, position);
      var result := if hint.None? then LowerBound(holes.Keys, 0) else hint;
      assert result.Some?;
      if result.value != position {
        if result.value > position || result.value + holes[result.value] <= position {
          result := FindHoleContaining(position);
        }
        if result.value != position {
          SplitHole(result.value, position);
          result := Some(position);
        }
      }
      return result;
    }

    /**
     * Creates a region at the hole from a buffer that only covers missing bytes, in one hole or in
     * several adjacent ones. Returns the first hole after it in the wraparound sense, None if there is none.
     */
    method Fill(hole: nat, buffer: seq<byte>) returns (next: Option<nat>)
      requires Valid() && hole in holes && |buffer| > 0
      requires forall q: nat :: hole <= q < hole + |buffer| ==> Covers(holes, q)
      modifies `holes, `regions
      ensures Valid() && regions == old(regions)[hole := buffer] && hole !in old(regions)
      ensures forall q: nat :: Covers(holes, q) <==> old(Covers(holes, q)) && !(hole <= q < hole + |buffer|)
      ensures forall k :: k in old(holes) && !(hole <= k < hole + |buffer|) ==> k in holes
      ensures next == NextWrapped(holes.Keys, hole + |buffer|)
      ensures next.None? <==> holes == map[]
    {
      regions := regions[hole := buffer];
      ghost var was := holes;
      assert Filled(holes, hole, holes, hole) && IteratorAt(holes, hole, |buffer|, Some(hole));
      next := EraseHoles(hole, |buffer|);
      FillingNow(was, hole, holes, Cursor(hole + |buffer|, 0, next));
      PartitionFilled(was, Extents(old(regions)), size, holes, hole, |buffer|);
      assert Extents(regions) == Extents(old(regions))[hole := |buffer|];
    }

    /** Takes n bytes off the front of a hole; the iterator goes to the next hole, from the last one to the first. */
    method EraseFront(k: nat, n: nat) returns (iter: Option<nat>)
      requires k in holes && 0 < n <= holes[k]
      modifies `holes
      ensures holes == Fillable(old(holes), k, n)
      ensures iter == AfterErasing(holes.Keys, k)
    {
      if n < holes[k] {
        holes := holes[k + n := holes[k] - n];
      }
      holes := holes - {k};
      iter := LowerBound(holes.Keys, k + 1);
      if iter.None? {
        iter := LowerBound(holes.Keys, 0);
      }
    }

    /** Takes the bytes out of the holes that contain them, of which the first begins there. */
    method EraseHoles(hole: nat, n: nat) returns (next: Option<nat>)
      requires Filling(holes, hole, holes, Cursor(hole, n, Some(hole)))
      modifies `holes
      ensures Filling(old(holes), hole, holes, Cursor(hole + n, 0, next))
    {
      ghost var was := holes;
      var iter := Some(hole);
      var bufferSize: nat := n;
      var position: nat := hole;
      while bufferSize != 0
        invariant Filling(was, hole, holes, Cursor(position, bufferSize, iter))
        invariant position + bufferSize == hole + n && (bufferSize != 0 ==> iter == Some(position))
      {
        var erased;
        erased, iter := EraseRound(was, hole, position, bufferSize);
        position := position + erased;
        bufferSize := bufferSize - erased;
      }
      return iter;
    }

    /** One round: part of the hole at the position, or all of it, goes. */
    method EraseRound(ghost was: map<nat, nat>, ghost hole: nat, position: nat, bufferSize: nat) returns (n: nat,
                      iter: Option<nat>)
      requires Filling(was, hole, holes, Cursor(position, bufferSize, Some(position))) && bufferSize > 0
      modifies `holes
      ensures 0 < n <= bufferSize && Filling(was, hole, holes, Cursor(position + n, bufferSize - n, iter))
      ensures n < bufferSize ==> iter == Some(position + n)
    {
      ghost var before := holes;
      FillingNow(was, hole, holes, Cursor(position, bufferSize, Some(position)));
      n := if bufferSize < holes[position] then bufferSize else holes[position];
      iter := EraseFront(position, n);
      FillRound(was, hole, before, position, bufferSize, n, holes, iter);
      FillingNow(was, hole, holes, Cursor(position + n, bufferSize - n, iter));
    }
  }

  /** How far filling has got, how many bytes are left, and where the iterator is. */
  datatype Cursor = Cursor(position: nat, rest: nat, iter: Option<nat>)

  /**
   * The state of filling from start: the bytes before the position are out of the holes, the next ones
   * are missing, and the iterator is at the hole that begins with them or, at the end, at the next hole.
   */
  ghost predicate Filling(was: map<nat, nat>, start: nat, m: map<nat, nat>, c: Cursor) {
    match c
    case Cursor(position, rest, iter) =>
      && Filled(was, start, m, position) && IteratorAt(m, position, rest, iter)
      && forall q: nat :: start <= q < position + rest ==> Covers(was, q)
  }

  ghost predicate Filled(was: map<nat, nat>, start: nat, m: map<nat, nat>, position: nat) {
    && Disjoint(m) && start <= position
    && (forall q: nat :: Covers(m, q) <==> Covers(was, q) && !(start <= q < position))
    && (forall k :: k in was && !(start <= k < position) ==> k in m)
  }

  predicate IteratorAt(m: map<nat, nat>, position: nat, rest: nat, iter: Option<nat>) {
    if rest == 0 then iter == NextWrapped(m.Keys, position) else iter == Some(position) && position in m
  }

  lemma FillingNow(was: map<nat, nat>, start: nat, m: map<nat, nat>, c: Cursor)
    requires Filling(was, start, m, c)
    ensures Filled(was, start, m, c.position) && IteratorAt(m, c.position, c.rest, c.iter)
  {
  }

  lemma FillRound(was: map<nat, nat>, start: nat, m: map<nat, nat>, position: nat, rest: nat, n: nat, h: map<nat,
                  nat>, next: Option<nat>)
    requires Filling(was, start, m, Cursor(position, rest, Some(position))) && rest > 0
    requires n == if rest < m[position] then rest else m[position]
    requires h == Fillable(m, position, n)
    requires next == AfterErasing(h.Keys, position)
    ensures Filling(was, start, h, Cursor(position + n, rest - n, next))
  {
    StepFilled(m, position, n, h, rest - n, LowerBound(h.Keys, position + 1));
    forall q: nat
      ensures Covers(h, q) <==> Covers(was, q) && !(start <= q < position + n)
    {
      assert position <= q < position + n ==> At(m, position, q) && Covers(m, q);
    }
    assert Filled(was, start, h, position + n);
    assert IteratorAt(h, position + n, rest - n, next);
  }

  /** The key after the one erased at k, from the last one to the first. */
  function AfterErasing(keys: set<nat>, k: nat): Option<nat> {
    if LowerBound(keys, k + 1).None? then LowerBound(keys, 0) else LowerBound(keys, k + 1)
  }

  /** One round of filling: n bytes of the hole at k are gone and the iterator is at the next hole. */
  lemma StepFilled(m: map<nat, nat>, k: nat, n: nat, h: map<nat, nat>, rest: nat, iter: Option<nat>)
    requires Disjoint(m) && k in m && 0 < n <= m[k] && h == Fillable(m, k, n)
    requires rest > 0 ==> n == m[k] && Covers(m, k + n)
    requires iter == LowerBound(h.Keys, k + 1)
    ensures Disjoint(h) && forall q: nat :: Covers(h, q) <==> Covers(m, q) && !(k <= q < k + n)
    ensures iter == LowerBound(h.Keys, k + n)
    ensures rest > 0 ==> iter == Some(k + n) && k + n in h
  {
    FillableKeeps(m, k, n);
    forall i | i in h && i > k
      ensures i >= k + n
    {
      assert i in m ==> k + m[k] <= i;
    }
    if rest > 0 {
      NextAdjacent(m, k);
    }
  }
}
