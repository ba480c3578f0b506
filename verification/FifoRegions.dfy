// The region list of FifoAllocator as a value: what each operation does to it,
// the invariant it keeps, and the heap of live intervals that it implements.

module FifoRegions {
  import opened Options

  datatype Span = Span(taken: bool, offset: nat, size: nat)

  /** The regions in list order and the position of the active one. */
  datatype Regions = Regions(spans: seq<Span>, active: nat)

  function Initial(size: nat): Regions {
    Regions([Span(false, 0, size)], 0)
  }

  // ----- the invariant

  /** Span i ends where the next one starts. */
  predicate Meets(spans: seq<Span>, i: nat)
    requires i + 1 < |spans|
  {
    spans[i].offset + spans[i].size == spans[i + 1].offset
  }

  /** Span i and the next one are not both free. */
  predicate Apart(spans: seq<Span>, i: nat)
    requires i + 1 < |spans|
  {
    spans[i].taken || spans[i + 1].taken
  }

  /** The spans cover [0, size) in offset order. */
  ghost predicate Tiles(spans: seq<Span>, size: nat) {
    && |spans| > 0
    && spans[0].offset == 0
    && spans[|spans| - 1].offset + spans[|spans| - 1].size == size
    && forall i {:trigger Meets(spans, i)} :: 0 <= i < |spans| - 1 ==> Meets(spans, i)
  }

  /** No two adjacent spans are free, except perhaps span k and the next. */
  ghost predicate CoalescedBut(spans: seq<Span>, k: int) {
    forall i {:trigger Apart(spans, i)} :: 0 <= i < |spans| - 1 && i != k ==> Apart(spans, i)
  }

  /** Only the active span can be empty. */
  ghost predicate Solid(r: Regions) {
    forall i :: 0 <= i < |r.spans| && i != r.active ==> r.spans[i].size > 0
  }

  ghost predicate ActiveFree(r: Regions) {
    r.active < |r.spans| && !r.spans[r.active].taken
  }

  ghost predicate Inv(r: Regions, size: nat) {
    Tiles(r.spans, size) && CoalescedBut(r.spans, -1) && ActiveFree(r) && Solid(r)
  }

  // ----- searching

  predicate IsFit(span: Span, size: nat) {
    !span.taken && span.size >= size
  }

  /** The first free span of at least size within [lo, hi), or hi. */
  function FirstFit(spans: seq<Span>, size: nat, lo: nat, hi: nat): (k: nat)
    requires lo <= hi <= |spans|
    ensures lo <= k <= hi
    ensures k < hi ==> IsFit(spans[k], size)
    ensures forall i :: lo <= i < k ==> !IsFit(spans[i], size)
    decreases hi - lo
  {
    if lo == hi || IsFit(spans[lo], size) then lo else FirstFit(spans, size, lo + 1, hi)
  }

  /** The first span at an offset within [lo, hi), or hi. */
  function FirstAt(spans: seq<Span>, offset: nat, lo: nat, hi: nat): (k: nat)
    requires lo <= hi <= |spans|
    ensures lo <= k <= hi
    ensures k < hi ==> spans[k].offset == offset
    ensures forall i :: lo <= i < k ==> spans[i].offset != offset
    decreases hi - lo
  {
    if lo == hi || spans[lo].offset == offset then lo else FirstAt(spans, offset, lo + 1, hi)
  }

  // ----- allocation

  function Without(spans: seq<Span>, k: nat): seq<Span>
    requires k < |spans|
  {
    spans[..k] + spans[k + 1..]
  }

  /** Makes span k the active one; an old active span of size zero goes away. */
  function Activate(r: Regions, k: nat): Regions
    requires r.active < |r.spans| && k < |r.spans| && k != r.active
  {
    if r.spans[r.active].size == 0
    then Regions(Without(r.spans, r.active), if k > r.active then k - 1 else k)
    else Regions(r.spans, k)
  }

  /** The search for a span that is large enough starts behind the active one and wraps around. */
  function Advance(r: Regions, size: nat): Option<Regions>
    requires r.active < |r.spans|
  {
    var k := FirstFit(r.spans, size, r.active + 1, |r.spans|);
    if k < |r.spans| then Some(Activate(r, k))
    else
      var j := FirstFit(r.spans, size, 0, r.active);
      if j < r.active then Some(Activate(r, j)) else None
  }

  /** Allocates all of the active span and finds or makes another active one. */
  function TakeAll(r: Regions): Regions
    requires r.active < |r.spans|
  {
    var a := r.spans[r.active];
    var spans := r.spans[r.active := a.(taken := true)];
    if r.active == |spans| - 1 then
      if !spans[0].taken then Regions(spans, 0)
      else Regions([Span(false, 0, 0)] + spans, 0)
    else
      Regions(spans[..r.active + 1] + [Span(false, a.offset + a.size, 0)] + spans[r.active + 1..], r.active + 1)
  }

  /** Allocates the front of the active span. */
  function TakeFront(r: Regions, size: nat): Regions
    requires r.active < |r.spans| && size <= r.spans[r.active].size
  {
    var a := r.spans[r.active];
    Regions(r.spans[..r.active] + [Span(true, a.offset, size), Span(false, a.offset + size, a.size - size)]
            + r.spans[r.active + 1..],
            r.active + 1)
  }

  function Take(r: Regions, size: nat): Regions
    requires r.active < |r.spans| && size <= r.spans[r.active].size
  {
    if r.spans[r.active].size == size then TakeAll(r) else TakeFront(r, size)
  }

  /** The new regions, and the offset of the allocated one if there is room for it. */
  function Allocate(r: Regions, size: nat): (Regions, Option<nat>)
    requires r.active < |r.spans|
  {
    if r.spans[r.active].size >= size then (Take(r, size), Some(r.spans[r.active].offset))
    else
      match Advance(r, size)
      case Some(a) => (Take(a, size), Some(a.spans[a.active].offset))
      case None => (r, None)
  }

  // ----- release

  function MergePrevious(r: Regions, k: nat): Regions
    requires 0 < k < |r.spans|
  {
    var p := r.spans[k - 1];
    Regions(r.spans[..k - 1] + [p.(size := p.size + r.spans[k].size)] + r.spans[k + 1..],
            if r.active >= k then r.active - 1 else r.active)
  }

  function MergeNext(r: Regions, k: nat): Regions
    requires k + 1 < |r.spans|
  {
    var n := r.spans[k + 1];
    Regions(r.spans[..k] + [Span(n.taken, r.spans[k].offset, n.size + r.spans[k].size)] + r.spans[k + 2..],
            if r.active > k then r.active - 1 else r.active)
  }

  function CoalesceNext(r: Regions, k: nat): Regions
    requires k < |r.spans|
  {
    if k + 1 < |r.spans| && !r.spans[k + 1].taken then MergeNext(r, k) else r
  }

  function Freed(r: Regions, k: nat): Regions
    requires k < |r.spans|
  {
    r.(spans := r.spans[k := r.spans[k].(taken := false)])
  }

  function ReleaseAt(r: Regions, k: nat): Regions
    requires k < |r.spans|
  {
    var f := Freed(r, k);
    if k > 0 && !f.spans[k - 1].taken
    then CoalesceNext(MergePrevious(f, k), k - 1)
    else CoalesceNext(f, k)
  }

  /** Where the search for a region to release ends: behind the active one first, then before it. */
  function Find(r: Regions, offset: nat): Option<nat>
    requires r.active < |r.spans|
  {
    var k := FirstAt(r.spans, offset, r.active + 1, |r.spans|);
    if k < |r.spans| then Some(k)
    else
      var j := FirstAt(r.spans, offset, 0, r.active);
      if j < r.active then Some(j) else None
  }

  predicate AnyAllocated(r: Regions) {
    |r.spans| != 1 || r.active != 0
  }

  // ----- every operation keeps the invariant

  lemma InitialKeeps(size: nat)
    ensures Inv(Initial(size), size)
  {
  }

  lemma ActivateKeeps(r: Regions, k: nat, size: nat)
    requires Inv(r, size) && k < |r.spans| && k != r.active && !r.spans[k].taken
    ensures Inv(Activate(r, k), size)
    ensures Activate(r, k).spans[Activate(r, k).active] == r.spans[k]
  {
    var a, s, t := r.active, r.spans, Activate(r, k).spans;
    if s[a].size == 0 {
      assert a > 0 ==> Meets(s, a - 1) && Apart(s, a - 1);
      assert a + 1 < |s| ==> Meets(s, a) && Apart(s, a);
      forall i | 0 <= i < |t| - 1
        ensures Meets(t, i) && Apart(t, i)
      {
        var j := if i < a then i else i + 1;
        assert j + 1 < |s| ==> Meets(s, j) && Apart(s, j);
      }
    }
  }

  lemma AdvanceKeeps(r: Regions, n: nat, size: nat)
    requires Inv(r, size) && n > r.spans[r.active].size
    ensures match Advance(r, n)
            case Some(a) => Inv(a, size) && a.spans[a.active].size >= n
            case None => forall i :: 0 <= i < |r.spans| ==> !IsFit(r.spans[i], n)
  {
    var k := FirstFit(r.spans, n, r.active + 1, |r.spans|);
    var j := FirstFit(r.spans, n, 0, r.active);
    if k < |r.spans| {
      ActivateKeeps(r, k, size);
    } else if j < r.active {
      ActivateKeeps(r, j, size);
    }
  }

  lemma TakeFrontKeeps(r: Regions, n: nat, size: nat)
    requires Inv(r, size) && 0 < n < r.spans[r.active].size
    ensures Inv(TakeFront(r, n), size)
  {
    var a, s, t := r.active, r.spans, TakeFront(r, n).spans;
    forall i | 0 <= i < |t| - 1
      ensures Meets(t, i) && Apart(t, i)
    {
      var j := if i < a then i else i - 1;
      assert i != a ==> Meets(s, j) && Apart(s, j);
    }
  }

  lemma TakeAllKeeps(r: Regions, size: nat)
    requires Inv(r, size) && r.spans[r.active].size > 0
    ensures Inv(TakeAll(r), size)
  {
    var a, s, t := r.active, r.spans, TakeAll(r).spans;
    if a < |s| - 1 {
      TakeInsideKeeps(r, size);
    } else {
      var shift := |t| - |s|;
      forall i | 0 <= i < |t| - 1
        ensures Meets(t, i) && Apart(t, i)
      {
        assert i >= shift ==> Meets(s, i - shift) && Apart(s, i - shift);
      }
    }
  }

  lemma TakeInsideKeeps(r: Regions, size: nat)
    requires Inv(r, size) && r.spans[r.active].size > 0 && r.active < |r.spans| - 1
    ensures Inv(TakeAll(r), size)
  {
    var a, s, t := r.active, r.spans, TakeAll(r).spans;
    forall i | 0 <= i < |t| - 1
      ensures Meets(t, i) && Apart(t, i)
    {
      var j := if i > a then i - 1 else i;
      assert Meets(s, j) && Apart(s, j);
    }
  }

  lemma TakeKeeps(r: Regions, n: nat, size: nat)
    requires Inv(r, size) && 0 < n <= r.spans[r.active].size
    ensures Inv(Take(r, n), size)
  {
    if n == r.spans[r.active].size {
      TakeAllKeeps(r, size);
    } else {
      TakeFrontKeeps(r, n, size);
    }
  }

  lemma AllocateKeeps(r: Regions, n: nat, size: nat)
    requires Inv(r, size) && n > 0
    ensures Inv(Allocate(r, n).0, size)
  {
    if r.spans[r.active].size < n {
      AdvanceKeeps(r, n, size);
    }
    match Advance(r, n)
    case Some(a) =>
      if r.spans[r.active].size < n {
        TakeKeeps(a, n, size);
      } else {
        TakeKeeps(r, n, size);
      }
    case None =>
      if r.spans[r.active].size >= n {
        TakeKeeps(r, n, size);
      }
  }

  lemma MergePreviousKeeps(r: Regions, k: nat, size: nat)
    requires 0 < k < |r.spans| && Tiles(r.spans, size) && Solid(r) && ActiveFree(r)
    requires !r.spans[k - 1].taken && !r.spans[k].taken
    requires k > 1 ==> r.spans[k - 2].taken
    requires forall i {:trigger Apart(r.spans, i)} ::
               0 <= i < |r.spans| - 1 && i != k - 1 && i != k ==> Apart(r.spans, i)
    ensures var m := MergePrevious(r, k);
            && Tiles(m.spans, size) && Solid(m) && ActiveFree(m) && CoalescedBut(m.spans, k - 1)
            && (k > 1 ==> m.spans[k - 2].taken)
  {
    var s, t := r.spans, MergePrevious(r, k).spans;
    assert Meets(s, k - 1);
    forall i | 0 <= i < |t| - 1
      ensures Meets(t, i) && (i != k - 1 ==> Apart(t, i))
    {
      var j := if i < k - 1 then i else i + 1;
      assert Meets(s, j);
      assert j != k - 1 && j != k ==> Apart(s, j);
    }
  }

  lemma CoalesceNextKeeps(r: Regions, k: nat, size: nat)
    requires k < |r.spans| && Tiles(r.spans, size) && Solid(r) && ActiveFree(r)
    requires CoalescedBut(r.spans, k) && !r.spans[k].taken
    ensures Inv(CoalesceNext(r, k), size)
  {
    var s, t := r.spans, CoalesceNext(r, k).spans;
    if k + 1 < |s| {
      assert Meets(s, k);
      forall i | 0 <= i < |t| - 1
        ensures Meets(t, i) && Apart(t, i)
      {
        var j := if i < k || s[k + 1].taken then i else i + 1;
        assert Meets(s, j);
        assert j != k ==> Apart(s, j);
      }
    }
  }

  lemma FreedKeeps(r: Regions, k: nat, size: nat)
    requires Inv(r, size) && k < |r.spans| && r.spans[k].taken
    ensures var f := Freed(r, k);
            && Tiles(f.spans, size) && Solid(f) && ActiveFree(f)
            && forall i {:trigger Apart(f.spans, i)} ::
                 0 <= i < |f.spans| - 1 && i != k - 1 && i != k ==> Apart(f.spans, i)
  {
    var s, t := r.spans, Freed(r, k).spans;
    forall i | 0 <= i < |t| - 1
      ensures Meets(t, i) && (i != k - 1 && i != k ==> Apart(t, i))
    {
      assert Meets(s, i) && Apart(s, i);
    }
  }

  lemma ReleaseKeeps(r: Regions, k: nat, size: nat)
    requires Inv(r, size) && k < |r.spans| && r.spans[k].taken
    ensures Inv(ReleaseAt(r, k), size)
  {
    FreedKeeps(r, k, size);
    var f := Freed(r, k);
    if k > 0 && !f.spans[k - 1].taken {
      assert k > 1 ==> Apart(r.spans, k - 2);
      MergePreviousKeeps(f, k, size);
      CoalesceNextKeeps(MergePrevious(f, k), k - 1, size);
    } else {
      assert k > 0 ==> Apart(f.spans, k - 1);
      CoalesceNextKeeps(f, k, size);
    }
  }

  // ----- the abstract heap

  datatype Interval = Interval(offset: nat, size: nat)

  predicate Disjoint(a: Interval, b: Interval) {
    a.offset + a.size <= b.offset || b.offset + b.size <= a.offset
  }

  predicate Within(a: Interval, size: nat) {
    a.offset + a.size <= size
  }

  /** The intervals handed out and not yet released. */
  function Live(spans: seq<Span>): set<Interval> {
    set i | 0 <= i < |spans| && spans[i].taken :: Interval(spans[i].offset, spans[i].size)
  }

  /** An interval the heap has room for. */
  ghost predicate HasRoomAt(live: set<Interval>, a: Interval, size: nat) {
    Within(a, size) && forall b :: b in live ==> Disjoint(a, b)
  }

  lemma LiveOfSum(a: seq<Span>, b: seq<Span>)
    ensures Live(a + b) == Live(a) + Live(b)
  {
    var c := a + b;
    forall x | x in Live(a) + Live(b)
      ensures x in Live(c)
    {
      if x in Live(a) {
        var i :| 0 <= i < |a| && a[i].taken && x == Interval(a[i].offset, a[i].size);
        assert c[i] == a[i];
      } else {
        var i :| 0 <= i < |b| && b[i].taken && x == Interval(b[i].offset, b[i].size);
        assert c[|a| + i] == b[i];
      }
    }
  }

  lemma LiveOfParts(a: seq<Span>, b: seq<Span>, c: seq<Span>)
    ensures Live(a + b + c) == Live(a) + Live(b) + Live(c)
  {
    LiveOfSum(a + b, c);
    LiveOfSum(a, b);
  }

  lemma LiveOfOne(s: Span)
    ensures Live([s]) == if s.taken then {Interval(s.offset, s.size)} else {}
  {
    if s.taken {
      assert [s][0].taken;
    }
  }

  lemma LiveOfFree(s: Span, t: Span)
    requires !s.taken
    ensures Live([s, t]) == Live([t, s]) == Live([t])
  {
    LiveOfSum([s], [t]);
    LiveOfSum([t], [s]);
    LiveOfOne(s);
    assert [s, t] == [s] + [t] && [t, s] == [t] + [s];
  }

  /** Replacing a stretch of spans changes only that stretch's share. */
  lemma LiveOfSplit(spans: seq<Span>, lo: nat, hi: nat)
    requires lo <= hi <= |spans|
    ensures Live(spans) == Live(spans[..lo]) + Live(spans[lo..hi]) + Live(spans[hi..])
  {
    LiveOfParts(spans[..lo], spans[lo..hi], spans[hi..]);
    assert spans == spans[..lo] + spans[lo..hi] + spans[hi..];
  }

  lemma {:induction false} Ordered(spans: seq<Span>, size: nat, i: nat, j: nat)
    requires Tiles(spans, size) && i < j < |spans|
    ensures spans[i].offset + spans[i].size <= spans[j].offset
    ensures spans[j].offset + spans[j].size <= size
    decreases j - i + |spans| - j
  {
    assert Meets(spans, i);
    if i + 1 < j {
      Ordered(spans, size, i + 1, j);
    }
    EndsWithin(spans, size, j);
  }

  lemma {:induction false} EndsWithin(spans: seq<Span>, size: nat, j: nat)
    requires Tiles(spans, size) && j < |spans|
    ensures spans[j].offset + spans[j].size <= size
    decreases |spans| - j
  {
    if j + 1 < |spans| {
      assert Meets(spans, j);
      EndsWithin(spans, size, j + 1);
    }
  }

  /** The span that holds a position. */
  lemma {:induction false} Locate(spans: seq<Span>, size: nat, position: nat, from: nat) returns (i: nat)
    requires Tiles(spans, size) && from < |spans| && spans[from].offset <= position < size
    ensures i < |spans| && spans[i].offset <= position < spans[i].offset + spans[i].size
    decreases |spans| - from
  {
    i := from;
    if position >= spans[from].offset + spans[from].size {
      assert Meets(spans, from);
      i := Locate(spans, size, position, from + 1);
    }
  }

  /** Live intervals are non-empty, within the buffer and pairwise disjoint. */
  lemma LiveDisjoint(r: Regions, size: nat, a: Interval, b: Interval)
    requires Inv(r, size) && a in Live(r.spans) && b in Live(r.spans)
    ensures a.size > 0 && Within(a, size)
    ensures a == b || Disjoint(a, b)
    ensures a.offset == b.offset ==> a == b
  {
    var i :| 0 <= i < |r.spans| && r.spans[i].taken && a == Interval(r.spans[i].offset, r.spans[i].size);
    var j :| 0 <= j < |r.spans| && r.spans[j].taken && b == Interval(r.spans[j].offset, r.spans[j].size);
    EndsWithin(r.spans, size, i);
    if i < j {
      Ordered(r.spans, size, i, j);
    } else if j < i {
      Ordered(r.spans, size, j, i);
    }
  }

  lemma FitHasRoom(r: Regions, n: nat, size: nat, i: nat)
    requires Inv(r, size) && n > 0 && i < |r.spans| && IsFit(r.spans[i], n)
    ensures HasRoomAt(Live(r.spans), Interval(r.spans[i].offset, n), size)
  {
    EndsWithin(r.spans, size, i);
    forall b | b in Live(r.spans)
      ensures Disjoint(Interval(r.spans[i].offset, n), b)
    {
      var j :| 0 <= j < |r.spans| && r.spans[j].taken && b == Interval(r.spans[j].offset, r.spans[j].size);
      if i < j {
        Ordered(r.spans, size, i, j);
      } else {
        Ordered(r.spans, size, j, i);
      }
    }
  }

  lemma TakenIsLive(spans: seq<Span>, i: nat)
    requires i < |spans|
    ensures spans[i].taken ==> Interval(spans[i].offset, spans[i].size) in Live(spans)
  {
  }

  /** Because free space is coalesced, room anywhere means one span that fits. */
  lemma RoomHasFit(r: Regions, a: Interval, size: nat) returns (i: nat)
    requires Inv(r, size) && a.size > 0 && HasRoomAt(Live(r.spans), a, size)
    ensures i < |r.spans| && IsFit(r.spans[i], a.size)
  {
    i := Locate(r.spans, size, a.offset, 0);
    TakenIsLive(r.spans, i);
    if i + 1 < |r.spans| {
      assert Meets(r.spans, i) && Apart(r.spans, i);
      TakenIsLive(r.spans, i + 1);
    }
  }

  lemma ActivateLive(r: Regions, k: nat, size: nat)
    requires Inv(r, size) && k < |r.spans| && k != r.active
    ensures Live(Activate(r, k).spans) == Live(r.spans)
  {
    var a := r.active;
    LiveOfSplit(r.spans, a, a + 1);
    LiveOfOne(r.spans[a]);
    assert r.spans[a..a + 1] == [r.spans[a]];
    LiveOfSum(r.spans[..a], r.spans[a + 1..]);
  }

  lemma TakeLive(r: Regions, n: nat, size: nat)
    requires Inv(r, size) && 0 < n <= r.spans[r.active].size
    ensures Live(Take(r, n).spans) == Live(r.spans) + {Interval(r.spans[r.active].offset, n)}
  {
    var i, s, t := r.active, r.spans, Take(r, n).spans;
    var a, front, back := s[i], s[..i], s[i + 1..];
    LiveOfSplit(s, i, i + 1);
    LiveOfOne(a);
    assert s[i..i + 1] == [a];
    var taken := Span(true, a.offset, n);
    LiveOfOne(taken);
    var rest := Span(false, a.offset + n, a.size - n);
    if n < a.size {
      LiveOfFree(rest, taken);
      LiveOfParts(front, [taken, rest], back);
    } else {
      LiveOfParts(front, [taken], back);
      assert s[i := taken] == front + [taken] + back;
      if i == |s| - 1 {
        LiveOfOne(Span(false, 0, 0));
        LiveOfSum([Span(false, 0, 0)], s[i := taken]);
      } else {
        LiveOfFree(rest, taken);
        LiveOfParts(front, [taken, rest], back);
        assert t == front + [taken, rest] + back;
      }
    }
  }

  /**
   * Allocation hands out an interval disjoint from every live one, and fails, changing
   * nothing, exactly when no interval of that size has room.
   */
  lemma AllocateRefines(r: Regions, n: nat, size: nat)
    requires Inv(r, size) && n > 0
    ensures match Allocate(r, n)
            case (r', Some(offset)) =>
              && HasRoomAt(Live(r.spans), Interval(offset, n), size)
              && Live(r'.spans) == Live(r.spans) + {Interval(offset, n)}
            case (r', None) =>
              && r' == r
              && forall offset :: !HasRoomAt(Live(r.spans), Interval(offset, n), size)
  {
    if r.spans[r.active].size >= n {
      FitHasRoom(r, n, size, r.active);
      TakeLive(r, n, size);
    } else {
      AdvanceKeeps(r, n, size);
      match Advance(r, n)
      case Some(a) =>
        AdvanceLive(r, n, size);
        FitHasRoom(a, n, size, a.active);
        TakeLive(a, n, size);
      case None =>
        forall offset
          ensures !HasRoomAt(Live(r.spans), Interval(offset, n), size)
        {
          if HasRoomAt(Live(r.spans), Interval(offset, n), size) {
            var i := RoomHasFit(r, Interval(offset, n), size);
          }
        }
    }
  }

  lemma AdvanceLive(r: Regions, n: nat, size: nat)
    requires Inv(r, size) && n > r.spans[r.active].size && Advance(r, n).Some?
    ensures Live(Advance(r, n).value.spans) == Live(r.spans)
  {
    var k := FirstFit(r.spans, n, r.active + 1, |r.spans|);
    if k < |r.spans| {
      ActivateLive(r, k, size);
    } else {
      ActivateLive(r, FirstFit(r.spans, n, 0, r.active), size);
    }
  }

  // ----- the order of allocation

  /** How far a span is from the active one, going from front to back and then from the front again. */
  function Turn(r: Regions, i: nat): int {
    if i >= r.active then i - r.active else i - r.active + |r.spans|
  }

  /** Span k fits and comes first of those that do. */
  ghost predicate IsNextFit(r: Regions, n: nat, k: nat) {
    k < |r.spans| && IsFit(r.spans[k], n) &&
    forall i :: 0 <= i < |r.spans| && IsFit(r.spans[i], n) ==> Turn(r, k) <= Turn(r, i)
  }

  /**
   * Allocation takes the front of the next span that fits, beginning with the active one and wrapping around,
   * and the next allocation will begin right behind it, or at the front if that is the end.
   */
  lemma AllocatesInTurn(r: Regions, n: nat, size: nat) returns (k: nat)
    requires Inv(r, size) && n > 0 && Allocate(r, n).1.Some?
    ensures IsNextFit(r, n, k)
    ensures var (q, offset) := Allocate(r, n);
            && offset.value == r.spans[k].offset
            && q.active < |q.spans|
            && q.spans[q.active].offset == if offset.value + n == size then 0 else offset.value + n
  {
    var behind, before := FirstFit(r.spans, n, r.active + 1, |r.spans|), FirstFit(r.spans, n, 0, r.active);
    k := if r.spans[r.active].size >= n then r.active else if behind < |r.spans| then behind else before;
    if k == r.active {
      TakeMovesOn(r, n, size);
    } else {
      AdvanceKeeps(r, n, size);
      ActivateKeeps(r, k, size);
      TakeMovesOn(Activate(r, k), n, size);
    }
  }

  lemma TakeMovesOn(r: Regions, n: nat, size: nat)
    requires Inv(r, size) && 0 < n <= r.spans[r.active].size
    ensures var q, end := Take(r, n), r.spans[r.active].offset + n;
            q.active < |q.spans| && q.spans[q.active].offset == if end == size then 0 else end
  {
    EndsWithin(r.spans, size, r.active);
    if r.active + 1 < |r.spans| {
      Ordered(r.spans, size, r.active, r.active + 1);
      EndsWithin(r.spans, size, r.active + 1);
      assert Apart(r.spans, r.active) && Meets(r.spans, r.active);
    }
  }

  /** The active span includes another. */
  predicate ActiveIncludes(r: Regions, was: Span) {
    && r.active < |r.spans| && r.spans[r.active].offset <= was.offset
    && was.offset + was.size <= r.spans[r.active].offset + r.spans[r.active].size
  }

  lemma MergePreviousIncludes(r: Regions, k: nat, was: Span)
    requires 0 < k < |r.spans| && Meets(r.spans, k - 1) && ActiveIncludes(r, was)
    ensures ActiveIncludes(MergePrevious(r, k), was)
  {
  }

  lemma CoalesceNextIncludes(r: Regions, k: nat, was: Span)
    requires k < |r.spans| && (k + 1 < |r.spans| ==> Meets(r.spans, k)) && ActiveIncludes(r, was)
    ensures ActiveIncludes(CoalesceNext(r, k), was)
  {
  }

  /** A release leaves the active span in place; it may grow by what becomes free beside it. */
  lemma ReleaseKeepsActive(r: Regions, k: nat, size: nat)
    requires Inv(r, size) && k < |r.spans| && r.spans[k].taken
    ensures ActiveIncludes(ReleaseAt(r, k), r.spans[r.active])
  {
    var f, was := Freed(r, k), r.spans[r.active];
    assert k > 0 ==> Meets(r.spans, k - 1);
    assert k + 1 < |r.spans| ==> Meets(r.spans, k);
    if k > 0 && !f.spans[k - 1].taken {
      MergePreviousIncludes(f, k, was);
      CoalesceNextIncludes(MergePrevious(f, k), k - 1, was);
    } else {
      CoalesceNextIncludes(f, k, was);
    }
  }

  /** The search finds the live interval, although an empty placeholder may share its offset. */
  lemma FindFinds(r: Regions, a: Interval, size: nat)
    requires Inv(r, size) && a in Live(r.spans)
    ensures var k := Find(r, a.offset);
            k.Some? && k.value < |r.spans| && r.spans[k.value] == Span(true, a.offset, a.size)
  {
    var i :| 0 <= i < |r.spans| && r.spans[i].taken && a == Interval(r.spans[i].offset, r.spans[i].size);
    var k := Find(r, a.offset);
    assert k.Some?;
    if k.value < i {
      Ordered(r.spans, size, k.value, i);
    } else if i < k.value {
      Ordered(r.spans, size, i, k.value);
    }
  }

  lemma MergePreviousLive(r: Regions, k: nat)
    requires 0 < k < |r.spans| && !r.spans[k - 1].taken && !r.spans[k].taken
    ensures Live(MergePrevious(r, k).spans) == Live(r.spans)
  {
    var s, m := r.spans, MergePrevious(r, k).spans;
    LiveOfSplit(s, k - 1, k + 1);
    assert s[k - 1..k + 1] == [s[k - 1], s[k]];
    LiveOfFree(s[k - 1], s[k]);
    LiveOfOne(s[k]);
    LiveOfOne(m[k - 1]);
    LiveOfParts(s[..k - 1], [m[k - 1]], s[k + 1..]);
  }

  lemma CoalesceNextLive(r: Regions, k: nat)
    requires k < |r.spans| && !r.spans[k].taken
    ensures Live(CoalesceNext(r, k).spans) == Live(r.spans)
  {
    var s := r.spans;
    if k + 1 < |s| && !s[k + 1].taken {
      var m := MergeNext(r, k).spans;
      LiveOfSplit(s, k, k + 2);
      assert s[k..k + 2] == [s[k], s[k + 1]];
      LiveOfFree(s[k], s[k + 1]);
      LiveOfOne(s[k + 1]);
      LiveOfOne(m[k]);
      LiveOfParts(s[..k], [m[k]], s[k + 2..]);
    }
  }

  lemma FreedLive(r: Regions, k: nat, size: nat)
    requires Inv(r, size) && k < |r.spans| && r.spans[k].taken
    ensures Live(Freed(r, k).spans) == Live(r.spans) - {Interval(r.spans[k].offset, r.spans[k].size)}
  {
    var s, f := r.spans, Freed(r, k).spans;
    var a := Interval(s[k].offset, s[k].size);
    forall b | b in Live(s) && b != a
      ensures b in Live(f)
    {
      var i :| 0 <= i < |s| && s[i].taken && b == Interval(s[i].offset, s[i].size);
      assert f[i] == s[i];
    }
    forall b | b in Live(f)
      ensures b in Live(s) && b != a
    {
      var i :| 0 <= i < |f| && f[i].taken && b == Interval(f[i].offset, f[i].size);
      assert s[i] == f[i];
      if i < k {
        Ordered(s, size, i, k);
      } else {
        Ordered(s, size, k, i);
      }
    }
  }

  /** Release gives up exactly the interval at the offset. */
  lemma ReleaseRefines(r: Regions, a: Interval, size: nat)
    requires Inv(r, size) && a in Live(r.spans)
    ensures var k := Find(r, a.offset);
            && k.Some? && k.value < |r.spans|
            && Inv(ReleaseAt(r, k.value), size)
            && Live(ReleaseAt(r, k.value).spans) == Live(r.spans) - {a}
  {
    FindFinds(r, a, size);
    var k := Find(r, a.offset).value;
    ReleaseKeeps(r, k, size);
    FreedLive(r, k, size);
    var f := Freed(r, k);
    if k > 0 && !f.spans[k - 1].taken {
      MergePreviousLive(f, k);
      CoalesceNextLive(MergePrevious(f, k), k - 1);
    } else {
      CoalesceNextLive(f, k);
    }
  }

  lemma AnyAllocatedIffLive(r: Regions, size: nat)
    requires Inv(r, size)
    ensures AnyAllocated(r) <==> Live(r.spans) != {}
  {
    var s := r.spans;
    if |s| > 1 {
      assert Apart(s, 0);
      var i := if s[0].taken then 0 else 1;
      assert Interval(s[i].offset, s[i].size) in Live(s);
    }
  }

}
