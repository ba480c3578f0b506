// FifoAllocator: the doubly linked region list, its active region and its
// lookaside, proved to compute what FifoRegions says.

module FifoAllocators {
  import opened Options
  import opened FifoRegions

  /** Returned when an allocation cannot be performed. */
  const NULL_OFFSET: nat := 0xffff_ffff_ffff_ffff

  class Region {
    var taken: bool
    var size: nat
    var offset: nat
    var prev: Region?
    var next: Region?

    constructor ()
    {
    }
  }

  // ----- lists of distinct nodes

  predicate Differ(nodes: seq<Region>, i: nat, j: nat)
    requires i < |nodes| && j < |nodes|
  {
    nodes[i] != nodes[j]
  }

  ghost predicate Distinct(nodes: seq<Region>) {
    forall i, j {:trigger Differ(nodes, i, j)} :: 0 <= i < j < |nodes| ==> Differ(nodes, i, j)
  }

  ghost function NodeAt(nodes: seq<Region>, k: nat): Region? {
    if k < |nodes| then nodes[k] else null
  }

  ghost function NodeBefore(nodes: seq<Region>, k: nat): Region?
    requires k <= |nodes|
  {
    if k == 0 then null else nodes[k - 1]
  }

  lemma DistinctIndices(nodes: seq<Region>, i: nat, j: nat)
    requires Distinct(nodes) && i < |nodes| && j < |nodes| && i != j
    ensures nodes[i] != nodes[j]
  {
    assert if i < j then Differ(nodes, i, j) else Differ(nodes, j, i);
  }

  lemma DistinctWithout(nodes: seq<Region>, k: nat)
    requires Distinct(nodes) && k < |nodes|
    ensures Distinct(nodes[..k] + nodes[k + 1..])
    ensures nodes[k] !in nodes[..k] + nodes[k + 1..]
  {
    var t := nodes[..k] + nodes[k + 1..];
    forall i, j | 0 <= i < j < |t|
      ensures Differ(t, i, j)
    {
      DistinctIndices(nodes, if i < k then i else i + 1, if j < k then j else j + 1);
    }
    forall i | 0 <= i < |t|
      ensures t[i] != nodes[k]
    {
      DistinctIndices(nodes, if i < k then i else i + 1, k);
    }
  }

  lemma DistinctWith(nodes: seq<Region>, region: Region, k: nat)
    requires Distinct(nodes) && k <= |nodes| && region !in nodes
    ensures Distinct(nodes[..k] + [region] + nodes[k..])
  {
    var t := nodes[..k] + [region] + nodes[k..];
    forall i, j | 0 <= i < j < |t|
      ensures Differ(t, i, j)
    {
      if i != k && j != k {
        DistinctIndices(nodes, if i < k then i else i - 1, if j < k then j else j - 1);
      }
    }
  }

  // ----- what the pointers and fields of a list must be

  ghost predicate Holds(region: Region, span: Span)
    reads region
  {
    region.taken == span.taken && region.offset == span.offset && region.size == span.size
  }

  /** Node i is linked to its neighbours and holds span i. */
  ghost predicate LinkAt(nodes: seq<Region>, spans: seq<Span>, i: nat)
    requires i < |nodes| == |spans|
    reads nodes
  {
    && nodes[i].prev == NodeBefore(nodes, i)
    && nodes[i].next == NodeAt(nodes, i + 1)
    && Holds(nodes[i], spans[i])
  }

  /** prev and next are mutually inverse along a list that holds the spans. */
  ghost predicate Linked(nodes: seq<Region>, spans: seq<Span>)
    reads nodes
  {
    |nodes| == |spans| && forall i {:trigger LinkAt(nodes, spans, i)} :: 0 <= i < |nodes| ==> LinkAt(nodes, spans, i)
  }

  ghost predicate ChainAt(spare: seq<Region>, i: nat)
    requires i < |spare|
    reads spare
  {
    spare[i].next == NodeAt(spare, i + 1)
  }

  /** The lookaside uses next only. */
  ghost predicate Chained(spare: seq<Region>)
    reads spare
  {
    forall i {:trigger ChainAt(spare, i)} :: 0 <= i < |spare| ==> ChainAt(spare, i)
  }

  /** Node i once region has been spliced into the list before position k. */
  ghost predicate SplicedAt(nodes: seq<Region>, spans: seq<Span>, region: Region, k: nat, i: nat)
    requires k < |nodes| == |spans| && i < |nodes|
    reads nodes
  {
    && nodes[i].prev == (if i == k then region else NodeBefore(nodes, i))
    && nodes[i].next == (if i + 1 == k then region else NodeAt(nodes, i + 1))
    && Holds(nodes[i], spans[i])
  }

  lemma SplicedLinks(nodes: seq<Region>, spans: seq<Span>, region: Region, span: Span, k: nat)
    requires k < |nodes| == |spans|
    requires region.prev == NodeBefore(nodes, k) && region.next == nodes[k] && Holds(region, span)
    requires forall i {:trigger SplicedAt(nodes, spans, region, k, i)} ::
               0 <= i < |nodes| ==> SplicedAt(nodes, spans, region, k, i)
    ensures Linked(nodes[..k] + [region] + nodes[k..], spans[..k] + [span] + spans[k..])
  {
    var t, u := nodes[..k] + [region] + nodes[k..], spans[..k] + [span] + spans[k..];
    forall i | 0 <= i < |t|
      ensures LinkAt(t, u, i)
    {
      assert i < k ==> SplicedAt(nodes, spans, region, k, i);
      assert i > k ==> SplicedAt(nodes, spans, region, k, i - 1);
    }
  }

  /** Node i once node k has been unlinked. */
  ghost predicate UnlinkedAt(nodes: seq<Region>, spans: seq<Span>, k: nat, i: nat)
    requires k < |nodes| == |spans| && i < |nodes|
    reads nodes
  {
    && nodes[i].prev == (if i == k + 1 then NodeBefore(nodes, k) else NodeBefore(nodes, i))
    && nodes[i].next == (if i + 1 == k then NodeAt(nodes, k + 1) else NodeAt(nodes, i + 1))
    && Holds(nodes[i], spans[i])
  }

  lemma UnlinkedLinks(nodes: seq<Region>, spans: seq<Span>, k: nat)
    requires k < |nodes| == |spans|
    requires forall i {:trigger UnlinkedAt(nodes, spans, k, i)} ::
               0 <= i < |nodes| && i != k ==> UnlinkedAt(nodes, spans, k, i)
    ensures Linked(nodes[..k] + nodes[k + 1..], Without(spans, k))
  {
    var t, u := nodes[..k] + nodes[k + 1..], Without(spans, k);
    forall i | 0 <= i < |t|
      ensures LinkAt(t, u, i)
    {
      assert UnlinkedAt(nodes, spans, k, if i < k then i else i + 1);
    }
  }

  class FifoAllocator {
    var total: nat
    var front: Region
    var back: Region
    var lookaside: Region?
    var active: Region

    ghost var nodes: seq<Region>  // the region list
    ghost var spans: seq<Span>    // what its regions hold
    ghost var at: nat             // where the active region is
    ghost var spare: seq<Region>  // the lookaside list
    ghost var repr: set<Region>   // every region structure the allocator owns

    /** The pointers represent the two lists. */
    ghost predicate Shape()
      reads this, repr
    {
      && (forall n :: n in nodes ==> n in repr) && (forall n :: n in spare ==> n in repr)
      && |nodes| > 0 && front == nodes[0] && back == nodes[|nodes| - 1]
      && Linked(nodes, spans) && Distinct(nodes)
      && lookaside == NodeAt(spare, 0) && Chained(spare) && Distinct(spare)
      && (forall n :: n in nodes ==> n !in spare)
    }

    ghost predicate ActiveAt()
      reads this
    {
      at < |nodes| && active == nodes[at]
    }

    ghost function View(): Regions
      reads this
    {
      Regions(spans, at)
    }

    ghost predicate Valid()
      reads this, repr
    {
      Shape() && ActiveAt() && Inv(View(), total)
    }

    constructor (size: nat)
      requires size < NULL_OFFSET
      ensures Valid() && fresh(repr)
      ensures total == size && View() == Initial(size)
    {
      total := size;
      var r := new Region();
      front, back, active := r, r, r;
      lookaside := null;
      nodes, spans, at, spare, repr := [r], [Span(false, 0, size)], 0, [], {r};
      new;
      r.taken, r.size, r.offset := false, size, 0;
      r.prev, r.next := null, null;
      InitialKeeps(size);
    }

    /** A node is the front (back) one exactly at the first (last) position. */
    lemma EndsAreEnds(k: nat)
      requires Shape() && k < |nodes|
      ensures nodes[k] == front <==> k == 0
      ensures nodes[k] == back <==> k == |nodes| - 1
    {
      if k > 0 {
        DistinctIndices(nodes, 0, k);
      }
      if k < |nodes| - 1 {
        DistinctIndices(nodes, k, |nodes| - 1);
      }
    }

    // ----- list primitives

    /** Takes a region off the list. */
    method Remove(region: Region, ghost k: nat)
      requires Shape() && k < |nodes| && nodes[k] == region && |nodes| > 1
      modifies this, repr
      ensures Shape() && nodes == old(nodes[..k] + nodes[k + 1..]) && spans == Without(old(spans), k)
      ensures region !in nodes && region !in spare
      ensures spare == old(spare) && repr == old(repr)
      ensures total == old(total) && active == old(active) && at == old(at)
    {
      ghost var was := nodes;
      assert LinkAt(was, spans, k);
      assert k > 0 ==> LinkAt(was, spans, k - 1);
      assert k + 1 < |was| ==> LinkAt(was, spans, k + 1);
      EndsAreEnds(k);
      if front == region {
        front := region.next;
      } else {
        region.prev.next := region.next;
      }
      if back == region {
        back := region.prev;
      } else {
        region.next.prev := region.prev;
      }
      forall i | 0 <= i < |was| && i != k
        ensures UnlinkedAt(was, spans, k, i)
      {
        assert old(LinkAt(was, spans, i));
        if k > 0 && i != k - 1 {
          DistinctIndices(was, i, k - 1);
        }
        if k + 1 < |was| && i != k + 1 {
          DistinctIndices(was, i, k + 1);
        }
      }
      assert k > 0 ==> was[k - 1] in was;
      assert k + 1 < |was| ==> was[k + 1] in was;
      forall i | 0 <= i < |spare|
        ensures ChainAt(spare, i)
      {
        assert old(ChainAt(spare, i)) && spare[i] in spare;
      }
      UnlinkedLinks(was, spans, k);
      DistinctWithout(was, k);
      nodes := was[..k] + was[k + 1..];
      spans := Without(spans, k);
    }

    /** Inserts a region that is on neither list before the one at k. */
    method InsertBefore(region: Region, before: Region, ghost k: nat)
      requires Shape() && k < |nodes| && nodes[k] == before
      requires region in repr && region !in nodes && region !in spare
      modifies this, repr
      ensures Shape() && nodes == old(nodes[..k] + [region] + nodes[k..])
      ensures spans == old(spans[..k] + [Span(region.taken, region.offset, region.size)] + spans[k..])
      ensures spare == old(spare) && repr == old(repr)
      ensures total == old(total) && active == old(active) && at == old(at)
    {
      ghost var was := nodes;
      assert LinkAt(was, spans, k);
      assert k > 0 ==> LinkAt(was, spans, k - 1);
      EndsAreEnds(k);
      region.prev := before.prev;
      before.prev := region;
      region.next := before;
      if front == before {
        front := region;
      } else {
        region.prev.next := region;
      }
      forall i | 0 <= i < |was|
        ensures SplicedAt(was, spans, region, k, i)
      {
        assert old(LinkAt(was, spans, i));
        if i != k {
          DistinctIndices(was, i, k);
        }
        if k > 0 && i != k - 1 {
          DistinctIndices(was, i, k - 1);
        }
      }
      assert was[k] in was && (k > 0 ==> was[k - 1] in was);
      forall i | 0 <= i < |spare|
        ensures ChainAt(spare, i)
      {
        assert old(ChainAt(spare, i)) && spare[i] in spare;
      }
      ghost var span := Span(region.taken, region.offset, region.size);
      SplicedLinks(was, spans, region, span, k);
      DistinctWith(was, region, k);
      nodes := was[..k] + [region] + was[k..];
      spans := spans[..k] + [span] + spans[k..];
    }

    // ----- the lookaside

    /** A region structure on neither list, reused if there is one to reuse. */
    method GetFree(taken: bool, size: nat, offset: nat) returns (region: Region)
      requires Shape() && size <= total && offset <= total - size
      modifies this, repr
      ensures Shape() && nodes == old(nodes) && spans == old(spans)
      ensures spare == if old(spare) == [] then [] else old(spare[1..])
      ensures old(repr) <= repr && fresh(repr - old(repr))
      ensures region in repr && region !in nodes && region !in spare
      ensures Holds(region, Span(taken, offset, size))
      ensures total == old(total) && active == old(active) && at == old(at) && front == old(front) && back == old(back)
    {
      if lookaside == null {
        region := new Region();
        repr := repr + {region};
      } else {
        region := lookaside;
        assert ChainAt(spare, 0);
        lookaside := lookaside.next;
        ghost var was := spare;
        spare := spare[1..];
        forall i | 0 <= i < |spare|
          ensures ChainAt(spare, i) && spare[i] != region
        {
          assert ChainAt(was, i + 1);
          DistinctIndices(was, 0, i + 1);
        }
        forall i, j | 0 <= i < j < |spare|
          ensures Differ(spare, i, j)
        {
          DistinctIndices(was, i + 1, j + 1);
        }
      }
      region.taken, region.size, region.offset := taken, size, offset;
      forall i | 0 <= i < |nodes|
        ensures LinkAt(nodes, spans, i)
      {
        assert old(LinkAt(nodes, spans, i)) && nodes[i] in nodes;
      }
    }

    /** Saves an unused region structure. */
    method PutFree(region: Region)
      requires Shape() && region in repr && region !in nodes && region !in spare
      modifies this, repr
      ensures Shape() && nodes == old(nodes) && spans == old(spans)
      ensures spare == old([region] + spare) && repr == old(repr)
      ensures total == old(total) && active == old(active) && at == old(at) && front == old(front) && back == old(back)
    {
      region.next := lookaside;
      lookaside := region;
      ghost var was := spare;
      spare := [region] + spare;
      forall i | 0 <= i < |spare|
        ensures ChainAt(spare, i)
      {
        assert i > 0 ==> old(ChainAt(was, i - 1));
      }
      forall i, j | 0 <= i < j < |spare|
        ensures Differ(spare, i, j)
      {
        if i > 0 {
          DistinctIndices(was, i - 1, j - 1);
        }
      }
      forall i | 0 <= i < |nodes|
        ensures LinkAt(nodes, spans, i)
      {
        assert old(LinkAt(nodes, spans, i));
      }
    }

    // ----- allocation

    /** Makes the region at k the active one, recycling an empty old one. */
    method MoveActive(region: Region, ghost k: nat)
      requires Shape() && ActiveAt() && k < |nodes| && region == nodes[k] && k != at
      modifies this, repr
      ensures Shape() && ActiveAt() && total == old(total) && repr == old(repr)
      ensures View() == Activate(old(View()), k)
    {
      ghost var a, was := at, nodes;
      assert LinkAt(nodes, spans, a);
      if active.size == 0 {
        Remove(active, a);
        PutFree(active);
        at := if k > a then k - 1 else k;
        assert nodes[at] == was[k];
      } else {
        at := k;
      }
      active := region;
    }

    /** Walking the list, the pointer reaches the end pointer exactly at the end position. */
    lemma EndOfRange(k: nat, hi: nat)
      requires Shape() && k <= hi <= |nodes|
      ensures NodeAt(nodes, k) == NodeAt(nodes, hi) <==> k == hi
    {
      if k < hi < |nodes| {
        DistinctIndices(nodes, k, hi);
      }
    }

    /** Looks for a free region of sufficient size in [begin, end) and makes it active. */
    method AdvanceActiveIn(size: nat, begin: Region?, end: Region?, ghost lo: nat, ghost hi: nat) returns (found: bool)
      requires Shape() && ActiveAt()
      requires lo <= hi <= |nodes| && begin == NodeAt(nodes, lo) && end == NodeAt(nodes, hi)
      requires !(lo <= at < hi)
      modifies this, repr
      ensures Shape() && ActiveAt() && total == old(total) && repr == old(repr)
      ensures var k := FirstFit(old(spans), size, lo, hi);
              if found then k < hi && View() == Activate(old(View()), k)
              else k == hi && unchanged(this) && unchanged(repr)
    {
      var region := begin;
      ghost var k := lo;
      while region != end
        invariant lo <= k <= hi && region == NodeAt(nodes, k)
        invariant Shape() && ActiveAt() && unchanged(this) && unchanged(repr)
        invariant FirstFit(spans, size, lo, hi) == FirstFit(spans, size, k, hi)
        decreases hi - k
      {
        EndOfRange(k, hi);
        assert LinkAt(nodes, spans, k);
        if !region.taken && region.size >= size {
          MoveActive(region, k);
          return true;
        }
        region := region.next;
        k := k + 1;
      }
      EndOfRange(k, hi);
      return false;
    }

    /** Advances the active region to one that is large enough, if there is one. */
    method AdvanceActive(size: nat) returns (found: bool)
      requires Valid() && size != 0
      modifies this, repr
      ensures Shape() && ActiveAt() && total == old(total) && repr == old(repr)
      ensures match Advance(old(View()), size)
              case Some(r) => found && View() == r
              case None => !found && unchanged(this) && unchanged(repr)
    {
      assert LinkAt(nodes, spans, at);
      found := AdvanceActiveIn(size, active.next, null, at + 1, |nodes|);
      if !found {
        found := AdvanceActiveIn(size, front, active, 0, at);
      }
    }

    /** Inserts an empty region behind the active one, or in front if that is the last. */
    method MakeActivePlaceholder()
      requires Shape() && ActiveAt()
      requires active.offset + active.size <= total
      modifies this, repr
      ensures Shape() && ActiveAt() && total == old(total)
      ensures old(repr) <= repr && fresh(repr - old(repr))
      ensures View() == old(
        var a := spans[at];
        if at == |spans| - 1 then Regions([Span(false, 0, 0)] + spans, 0)
        else Regions(spans[..at + 1] + [Span(false, a.offset + a.size, 0)] + spans[at + 1..], at + 1))
    {
      assert LinkAt(nodes, spans, at);
      EndsAreEnds(at);
      if active == back {
        InsertPlaceholder(front, 0, 0);
      } else {
        InsertPlaceholder(active.next, active.offset + active.size, at + 1);
      }
    }

    /** Inserts an empty region before another and makes it the active one. */
    method InsertPlaceholder(before: Region?, offset: nat, ghost k: nat)
      requires Shape() && k < |nodes| && before == nodes[k] && offset <= total
      modifies this, repr
      ensures Shape() && ActiveAt() && total == old(total)
      ensures old(repr) <= repr && fresh(repr - old(repr))
      ensures View() == Regions(old(spans[..k]) + [Span(false, offset, 0)] + old(spans[k..]), k)
    {
      var newActive := GetFree(false, 0, offset);
      InsertBefore(newActive, before, k);
      active := newActive;
      at := k;
    }

    /** Allocates a region and returns its offset, or NULL_OFFSET. */
    method AllocateRegion(size: nat) returns (offset: nat)
      requires Valid() && size != 0 && total < NULL_OFFSET
      modifies this, repr
      ensures Valid() && total == old(total)
      ensures old(repr) <= repr && fresh(repr - old(repr))
      ensures View() == Allocate(old(View()), size).0
      ensures match Allocate(old(View()), size).1
              case Some(o) => offset == o && o < NULL_OFFSET
              case None => offset == NULL_OFFSET
    {
      AllocateKeeps(View(), size, total);
      assert LinkAt(nodes, spans, at);
      if active.size < size {
        AdvanceKeeps(View(), size, total);
        var found := AdvanceActive(size);
        if !found {
          return NULL_OFFSET;
        }
      }
      offset := TakeFromActive(size);
    }

    /** Allocates from the active region, which is large enough. */
    method TakeFromActive(size: nat) returns (offset: nat)
      requires Valid() && 0 < size <= spans[at].size
      modifies this, repr
      ensures Shape() && ActiveAt() && total == old(total)
      ensures old(repr) <= repr && fresh(repr - old(repr))
      ensures View() == Take(old(View()), size)
      ensures offset == old(spans[at].offset) && offset + size <= total
    {
      EndsWithin(spans, total, at);
      assert LinkAt(nodes, spans, at);
      offset := active.offset;
      if active.size == size {
        TakeWholeActive();
      } else {
        var region := GetFree(true, size, active.offset);
        assert LinkAt(nodes, spans, at);
        Update(active, Span(active.taken, active.offset + size, active.size - size), at);
        InsertBefore(region, active, at);
        assert spans == TakeFront(old(View()), size).spans;
        at := at + 1;
      }
    }

    /** Allocates all of the active region and finds or makes another active one. */
    method TakeWholeActive()
      requires Shape() && ActiveAt() && spans[at].offset + spans[at].size <= total
      modifies this, repr
      ensures Shape() && ActiveAt() && total == old(total)
      ensures old(repr) <= repr && fresh(repr - old(repr))
      ensures View() == TakeAll(old(View()))
    {
      assert LinkAt(nodes, spans, at);
      Update(active, Span(true, active.offset, active.size), at);
      EndsAreEnds(at);
      assert LinkAt(nodes, spans, 0) && LinkAt(nodes, spans, at);
      if active == back && !front.taken {
        active := front;
        at := 0;
      } else {
        MakeActivePlaceholder();
      }
    }

    /** Changes what the region at k holds. */
    method Update(region: Region, span: Span, ghost k: nat)
      requires Shape() && k < |nodes| && region == nodes[k]
      modifies this, region
      ensures Shape() && nodes == old(nodes) && spans == old(spans[k := span])
      ensures spare == old(spare) && repr == old(repr)
      ensures total == old(total) && active == old(active) && at == old(at) && front == old(front) && back == old(back)
    {
      region.taken, region.offset, region.size := span.taken, span.offset, span.size;
      spans := spans[k := span];
      forall i | 0 <= i < |nodes|
        ensures LinkAt(nodes, spans, i)
      {
        assert old(LinkAt(nodes, spans, i));
        if i != k {
          DistinctIndices(nodes, i, k);
        }
      }
      assert region in nodes;
      forall i | 0 <= i < |spare|
        ensures ChainAt(spare, i)
      {
        assert old(ChainAt(spare, i)) && spare[i] in spare;
      }
    }

    // ----- release

    /** Releases the region at the offset if it is in [begin, end). */
    method ReleaseIn(offset: nat, begin: Region?, end: Region?, ghost lo: nat, ghost hi: nat) returns (released: bool)
      requires Shape() && ActiveAt()
      requires lo <= hi <= |nodes| && begin == NodeAt(nodes, lo) && end == NodeAt(nodes, hi)
      requires !(lo <= at < hi)
      modifies this, repr
      ensures Shape() && ActiveAt() && total == old(total) && repr == old(repr)
      ensures var k := FirstAt(old(spans), offset, lo, hi);
              if released then k < hi && View() == ReleaseAt(old(View()), k)
              else k == hi && unchanged(this) && unchanged(repr)
    {
      var region := begin;
      ghost var k := lo;
      while region != end
        invariant lo <= k <= hi && region == NodeAt(nodes, k)
        invariant Shape() && ActiveAt() && unchanged(this) && unchanged(repr)
        invariant FirstAt(spans, offset, lo, hi) == FirstAt(spans, offset, k, hi)
        decreases hi - k
      {
        EndOfRange(k, hi);
        assert LinkAt(nodes, spans, k);
        if region.offset == offset {
          Free(region, k);
          return true;
        }
        region := region.next;
        k := k + 1;
      }
      EndOfRange(k, hi);
      return false;
    }

    /** Frees the region at k and coalesces it with its free neighbours. */
    method Free(region0: Region, ghost k0: nat)
      requires Shape() && ActiveAt() && k0 < |nodes| && region0 == nodes[k0] && k0 != at
      modifies this, repr
      ensures Shape() && ActiveAt() && total == old(total) && repr == old(repr)
      ensures View() == ReleaseAt(old(View()), k0)
    {
      var region := region0;
      ghost var k := k0;
      assert LinkAt(nodes, spans, k);
      Update(region, Span(false, region.offset, region.size), k);
      assert LinkAt(nodes, spans, k);
      var prev := region.prev;
      if k > 0 {
        assert LinkAt(nodes, spans, k - 1);
      }
      if prev != null && !prev.taken {
        // Coalesce with the previous region.
        AbsorbIntoPrevious(region, prev, k);
        region, k := prev, k - 1;
      }
      CoalesceWithNext(region, k);
    }

    method AbsorbIntoPrevious(region: Region, prev: Region, ghost k: nat)
      requires Shape() && ActiveAt() && 0 < k < |nodes| && region == nodes[k] && prev == nodes[k - 1] && at != k
      modifies this, repr
      ensures Shape() && ActiveAt() && total == old(total) && repr == old(repr)
      ensures View() == MergePrevious(old(View()), k) && nodes[k - 1] == prev
    {
      ghost var was := nodes;
      assert LinkAt(nodes, spans, k) && LinkAt(nodes, spans, k - 1);
      Update(prev, Span(prev.taken, prev.offset, prev.size + region.size), k - 1);
      Remove(region, k);
      PutFree(region);
      at := if at >= k then at - 1 else at;
    }

    method CoalesceWithNext(region: Region, ghost k: nat)
      requires Shape() && ActiveAt() && k < |nodes| && region == nodes[k]
      modifies this, repr
      ensures Shape() && ActiveAt() && total == old(total) && repr == old(repr)
      ensures View() == CoalesceNext(old(View()), k)
    {
      assert LinkAt(nodes, spans, k);
      var next := region.next;
      if k + 1 < |nodes| {
        assert LinkAt(nodes, spans, k + 1);
      }
      if next != null && !next.taken {
        // Coalesce with the next region.
        Update(next, Span(next.taken, region.offset, next.size + region.size), k + 1);
        if active == region {
          active := next;
        }
        Remove(region, k);
        PutFree(region);
        at := if at > k then at - 1 else at;
      }
    }

    /** Releases a previously allocated region. */
    method ReleaseRegion(offset: nat)
      requires Valid() && exists size :: Interval(offset, size) in Live(spans)
      modifies this, repr
      ensures Valid() && total == old(total) && repr == old(repr)
      ensures var k := Find(old(View()), offset);
              k.Some? && k.value < |old(spans)| && View() == ReleaseAt(old(View()), k.value)
    {
      ghost var size :| Interval(offset, size) in Live(spans);
      ReleaseRefines(View(), Interval(offset, size), total);
      assert LinkAt(nodes, spans, at);
      // The region behind the active one is usually the one we are looking for.
      var released := ReleaseIn(offset, active.next, null, at + 1, |nodes|);
      if !released {
        released := ReleaseIn(offset, front, active, 0, at);
      }
    }

    /** Determines if there are currently any allocated regions. */
    method AnyCurrentAllocatedRegions() returns (any: bool)
      requires Valid()
      ensures any <==> Live(spans) != {}
    {
      any := front != back || front != active;
      EndsAreEnds(0);
      EndsAreEnds(at);
      AnyAllocatedIffLive(View(), total);
    }

    /** Back to the initial state, with a new size and an empty lookaside. */
    method Reset(size: nat)
      requires size < NULL_OFFSET
      modifies this
      ensures Valid() && fresh(repr)
      ensures total == size && View() == Initial(size)
    {
      var r := new Region();
      r.taken, r.size, r.offset := false, size, 0;
      r.prev, r.next := null, null;
      total, front, back, active, lookaside := size, r, r, r, null;
      nodes, spans, at, spare, repr := [r], [Span(false, 0, size)], 0, [], {r};
      assert LinkAt(nodes, spans, 0);
      InitialKeeps(size);
    }
  }

}
