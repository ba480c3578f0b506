// Which buffers an allocation or a release uses, creates and deletes: what is
// there already is used before the system is asked for more.

module BufferPoolReuse {
  import opened Options
  import opened FifoRegions
  import opened BufferPool
  import opened BufferPoolInvariant

  /** Buffer i is in both pools, mapped and used alike. */
  predicate Stays(p: Pool, q: Pool, i: nat) {
    && i in p.mapped && i in q.mapped && p.mapped[i] == q.mapped[i]
    && i in p.buffers && i in q.buffers && p.buffers[i] == q.buffers[i]
  }

  predicate Fits(p: Pool, i: nat, size: nat) {
    IsFree(p, i) && i in p.buffers && p.buffers[i].size >= size
  }

  predicate TooSmall(p: Pool, i: nat, size: nat) {
    IsFree(p, i) && i in p.buffers && p.buffers[i].size < size
  }

  /** A free buffer that fits, and no smaller one does. */
  ghost predicate BestFit(p: Pool, i: nat, size: nat) {
    Fits(p, i, size) && forall j :: Fits(p, j, size) ==> p.buffers[i].size <= p.buffers[j].size
  }

  // ----- the whole strategy

  /** Evicting takes out the free buffers that are too small and nothing else. */
  ghost predicate Evicted(p: Pool, e: Pool, size: nat) {
    && (forall i :: i in e.mapped <==> i in p.mapped && !TooSmall(p, i, size))
    && (forall i :: i in e.mapped ==> Stays(p, e, i))
    && (forall i :: IsFree(e, i) <==> Fits(p, i, size))
  }

  lemma {:induction false} EvictsTooSmall(p: Pool, size: nat)
    requires Core(p)
    ensures Core(Evict(p, size)) && Evicted(p, Evict(p, size), size)
    ensures Evict(p, size).active == p.active
    decreases |p.free|
  {
    if p.free != [] && p.free[0].size < size {
      EvictFirstCore(p);
      FreeTail(p, p.free[0].id);
      EvictsTooSmall(EvictFirst(p), size);
      EvictedOneMore(p, Evict(p, size), size);
    } else {
      FreeFits(p, size);
    }
  }

  lemma FreeFits(p: Pool, size: nat)
    requires Core(p) && (p.free != [] ==> p.free[0].size >= size)
    ensures Evicted(p, p, size)
  {
    forall i | IsFree(p, i)
      ensures Fits(p, i, size)
    {
      var k :| 0 <= k < |p.free| && p.free[k].id == i;
    }
  }

  /** Deleting the first free buffer makes no difference to the others. */
  lemma FirstGone(p: Pool, size: nat, i: nat)
    requires Core(p) && p.free != [] && p.free[0].size < size
    ensures var q, id := EvictFirst(p), p.free[0].id;
            if i == id then TooSmall(p, i, size) && i !in q.mapped && !IsFree(q, i)
            else
              && (i in p.mapped ==> Stays(p, q, i)) && (i in q.mapped ==> i in p.mapped)
              && (TooSmall(q, i, size) <==> TooSmall(p, i, size)) && (Fits(q, i, size) <==> Fits(p, i, size))
  {
    FreeTail(p, p.free[0].id);
    assert IsFree(p, p.free[0].id);
    assert IsFree(EvictFirst(p), i) <==> IsFree(p.(free := p.free[1..]), i);
  }

  lemma EvictedOneMore(p: Pool, e: Pool, size: nat)
    requires Core(p) && p.free != [] && p.free[0].size < size && Evicted(EvictFirst(p), e, size)
    ensures Evicted(p, e, size)
  {
    forall i
      ensures i in e.mapped <==> i in p.mapped && !TooSmall(p, i, size)
      ensures i in e.mapped ==> Stays(p, e, i)
      ensures IsFree(e, i) <==> Fits(p, i, size)
    {
      FirstGone(p, size, i);
    }
  }

  /**
   * An allocation of a whole buffer uses the smallest free buffer that fits, whatever the system would grant. Only
   * if none fits does it take the mapping granted. The free buffers that are too small go, all others stay.
   */
  lemma AllocateWholeReuses(p: Pool, size: nat, granted: Option<Mapping>)
    requires Core(p)
    ensures var (q, l) := AllocateWhole(p, size, granted);
            if exists i :: Fits(p, i, size)
            then l.Some? && l.value.offset == 0 && BestFit(p, l.value.id, size) && Stays(p, q, l.value.id)
            else
              && (l.Some? <==> granted.Some?)
              && (l.Some? ==>
                    && l.value.offset == 0 && l.value.id in q.mapped && q.mapped[l.value.id] == granted.value
                    && l.value.id in q.buffers && q.buffers[l.value.id] == Whole(size))
    ensures (exists i :: Fits(p, i, size)) ==> AllocateWhole(p, size, granted) == AllocateWhole(p, size, None)
    ensures var (q, l) := AllocateWhole(p, size, granted);
            && (forall i :: i in p.mapped && !TooSmall(p, i, size) ==> Stays(p, q, i))
            && (forall i :: i in q.mapped && l != Some(Locator(i, 0)) ==> i in p.mapped && !TooSmall(p, i, size))
            && (forall i :: IsFree(q, i) <==> Fits(p, i, size) && l != Some(Locator(i, 0)))
  {
    EvictsTooSmall(p, size);
    var e := Evict(p, size);
    if e.free != [] {
      var id := e.free[0].id;
      FreeTail(e, id);
      assert IsFree(e, id) && Fits(p, id, size);
      forall j | Fits(p, j, size)
        ensures p.buffers[id].size <= p.buffers[j].size
      {
        assert IsFree(e, j);
        var k :| 0 <= k < |e.free| && e.free[k].id == j;
        assert Stays(p, e, j) && Stays(p, e, id);
      }
    } else {
      assert forall i :: !IsFree(e, i);
    }
  }

  // ----- the sliced strategy

  /** Some stretch of the active buffer is long enough and clear of every live region. */
  ghost predicate Roomy(p: Pool, size: nat) {
    p.active.Some? && IsSliced(p, p.active.value) &&
    exists offset: nat ::
      HasRoomAt(Live(p.buffers[p.active.value].regions.spans), Interval(offset, size), p.buffers[p.active.value].size)
  }

  /** The only buffer that may differ is i. */
  predicate OthersStay(p: Pool, q: Pool, i: nat) {
    && p.mapped - {i} == q.mapped - {i} && p.buffers - {i} == q.buffers - {i}
    && q.free == p.free && q.active == p.active && q.updates == p.updates
  }

  lemma AllocateFromReuses(p: Pool, id: nat, size: nat)
    requires BuffersInv(p) && IsSliced(p, id) && size > 0
    ensures var (q, l) := AllocateFrom(p, id, size);
            && (l.Some? <==> exists offset: nat ::
                  HasRoomAt(Live(p.buffers[id].regions.spans), Interval(offset, size), p.buffers[id].size))
            && (l.Some? ==> l.value.id == id && q.mapped == p.mapped && OthersStay(p, q, id))
            && (l.None? ==> q == p)
  {
    var b := p.buffers[id];
    assert BufferOk(p, id);
    AllocateRefines(b.regions, size, b.size);
    var (r, offset) := Allocate(b.regions, size);
    if offset.Some? {
      assert HasRoomAt(Live(b.regions.spans), Interval(offset.value, size), b.size);
      assert AllocateFrom(p, id, size) == (SetRegions(p, id, r), Some(Locator(id, offset.value)));
    }
  }

  /** The larger of three times the size and, if there is an active buffer, twice the size of that. */
  predicate LargeEnough(p: Pool, size: nat, n: nat) {
    && n >= 3 * size && (n > 3 * size ==> p.active.Some?)
    && (p.active.Some? && p.active.value in p.buffers ==>
          n >= 2 * p.buffers[p.active.value].size && (n == 3 * size || n == 2 * p.buffers[p.active.value].size))
  }

  /** What replacing the active buffer by a new one, id, makes of p. */
  ghost predicate Replaced(p: Pool, q: Pool, id: nat, size: nat, m: Mapping) {
    && q.active == Some(id) && id !in p.mapped && q.free == p.free
    && id in q.mapped && q.mapped[id] == m
    && id in q.buffers && q.buffers[id].Sliced? && LargeEnough(p, size, q.buffers[id].size)
    && (forall i :: i in q.mapped && i != id ==> Stays(p, q, i))
    && (forall i :: i in p.mapped ==> (i in q.mapped <==> !(p.active == Some(i) && IsEmpty(p, i))))
  }

  /** Nothing in the buffer is live. */
  ghost predicate IsEmpty(p: Pool, i: nat) {
    i in p.buffers && p.buffers[i].Sliced? && !HasLive(p, i)
  }

  lemma ReplaceActiveReplaces(p: Pool, size: nat, m: Mapping)
    requires Core(p) && size > 0 && (p.active.Some? ==> IsSliced(p, p.active.value))
    ensures Replaced(p, ReplaceActive(p, size, m), NewId(p), size, m)
    ensures var n := SlicedSize(p, size);
            ReplaceActive(p, size, m).buffers[NewId(p)] == Sliced(n, Initial(n)) && n >= size
  {
    if p.active.Some? {
      assert BufferOk(p, p.active.value);
      AnyAllocatedIffLive(p.buffers[p.active.value].regions, p.buffers[p.active.value].size);
    }
  }

  lemma AllocatedAfterReplacing(p: Pool, q: Pool, r: Pool, id: nat, size: nat, m: Mapping)
    requires Replaced(p, q, id, size, m) && OthersStay(q, r, id) && r.mapped == q.mapped
    requires id in r.buffers && r.buffers[id].Sliced? && r.buffers[id].size == q.buffers[id].size
    ensures Replaced(p, r, id, size, m)
  {
    forall i | i in r.mapped && i != id
      ensures Stays(p, r, i)
    {
      assert Stays(p, q, i) && i in q.buffers - {id} && i in r.buffers - {id};
    }
  }

  /**
   * An allocation of a slice uses the active buffer whenever that has room, whatever the system would grant, and
   * touches no other. Otherwise it takes the mapping granted for a new active buffer, and the
   * old one goes exactly if nothing in it is live.
   */
  lemma AllocateSlicedReuses(p: Pool, size: nat, granted: Option<Mapping>)
    requires Core(p) && size > 0 && (p.active.Some? ==> IsSliced(p, p.active.value))
    ensures var (q, l) := AllocateSliced(p, size, granted);
            if Roomy(p, size)
            then l.Some? && p.active == Some(l.value.id) && q.mapped == p.mapped && OthersStay(p, q, l.value.id)
            else if granted.None? then q == p && l == None
            else l.Some? && Replaced(p, q, l.value.id, size, granted.value)
  {
    if p.active.Some? {
      AllocateFromReuses(p, p.active.value, size);
    }
    if !Roomy(p, size) && granted.Some? {
      var m, id := granted.value, NewId(p);
      var q := ReplaceActive(p, size, m);
      ReplaceActiveReplaces(p, size, m);
      AllocateFromFresh(q, id, size);
      AllocatedFrom(q, id, size);
      AllocatedAfterReplacing(p, q, AllocateFrom(q, id, size).0, id, size, m);
    }
  }

  lemma AllocatedFrom(p: Pool, id: nat, size: nat)
    requires IsSliced(p, id) && AllocateFrom(p, id, size).1.Some?
    ensures var (q, l) := AllocateFrom(p, id, size);
            && OthersStay(p, q, id) && q.mapped == p.mapped && l.value.id == id
            && id in q.buffers && q.buffers[id].Sliced? && q.buffers[id].size == p.buffers[id].size
  {
  }

  // ----- both strategies

  /** There is room for a region among the buffers that are there. */
  ghost predicate CanReuse(p: Pool, size: nat) {
    if size >= WHOLE_REGION_MINIMUM_SIZE then exists i :: Fits(p, i, size) else Roomy(p, size)
  }

  /** Regions of 64 KiB and more get a buffer of their own, and what is there is used before anything new. */
  lemma AllocateReuses(p: Pool, size: nat, granted: Option<Mapping>)
    requires Core(p) && size > 0 && (p.active.Some? ==> IsSliced(p, p.active.value))
    ensures var (q, l) := AllocateRegion(p, size, granted);
            && (l.Some? <==> CanReuse(p, size) || granted.Some?)
            && (l.Some? ==>
                  && l.value.id in q.buffers && (q.buffers[l.value.id].Whole? <==> size >= 64 * 1024)
                  && (CanReuse(p, size) ==> l.value.id in p.mapped && l.value.id in q.mapped
                                            && q.mapped[l.value.id] == p.mapped[l.value.id])
                  && (!CanReuse(p, size) ==> l.value.id in q.mapped && q.mapped[l.value.id] == granted.value))
  {
    if size >= WHOLE_REGION_MINIMUM_SIZE {
      AllocateWholeReuses(p, size, granted);
      FreeAreWhole(p);
    } else {
      AllocateSlicedReuses(p, size, granted);
      SliceFromSliced(p, size, granted);
    }
  }

  lemma FreeAreWhole(p: Pool)
    requires FreeInv(p)
    ensures forall i :: IsFree(p, i) ==> i in p.buffers && p.buffers[i].Whole?
  {
  }

  lemma SliceFromSliced(p: Pool, size: nat, granted: Option<Mapping>)
    requires Core(p) && size > 0 && (p.active.Some? ==> IsSliced(p, p.active.value))
    ensures var (q, l) := AllocateSliced(p, size, granted);
            l.Some? ==> l.value.id in q.buffers && q.buffers[l.value.id].Sliced?
  {
    if p.active.Some? && AllocateFrom(p, p.active.value, size).1.Some? {
      AllocatedFrom(p, p.active.value, size);
    } else if granted.Some? {
      AllocateSlicedReuses(p, size, granted);
    }
  }

  // ----- release

  /**
   * A release leaves every other buffer as it is. A whole buffer is kept for reuse; a sliced one goes exactly if it
   * is not active and the region was the last in it.
   */
  lemma ReleaseKeepsBuffers(p: Pool, l: Locator, live: map<nat, nat>, peer: map<nat, nat>)
    requires PoolInv(p, live, peer) && l.id in p.mapped && l.offset < p.mapped[l.id].size
    requires p.mapped[l.id].base + l.offset in live
    ensures CanRelease(p, l)
    ensures var q := Release(p, l);
            && q.active == p.active
            && (forall i :: i in p.mapped && i != l.id ==> Stays(p, q, i))
            && (forall i :: i in q.mapped ==> i in p.mapped)
            && if p.buffers[l.id].Whole?
               then
                 && Stays(p, q, l.id) && q.updates == p.updates
                 && forall i :: IsFree(q, i) <==> IsFree(p, i) || i == l.id
               else q.free == p.free &&
                    (l.id in q.mapped <==> p.active == Some(l.id) || AnotherLive(p, l))
  {
    HolderOfAddress(p, l.id, p.mapped[l.id].base + l.offset, live);
    if p.buffers[l.id].Whole? {
      InsertedIsFree(p, l.id);
    } else {
      ReleaseSlicedKeepsBuffers(p, l, live);
    }
  }

  /** Something else than the region at the locator is live in its buffer. */
  ghost predicate AnotherLive(p: Pool, l: Locator)
    requires l.id in p.buffers && p.buffers[l.id].Sliced?
  {
    exists a :: a in Live(p.buffers[l.id].regions.spans) && a.offset != l.offset
  }

  lemma ReleaseSlicedKeepsBuffers(p: Pool, l: Locator, live: map<nat, nat>)
    requires Core(p) && LiveInv(p, live) && l.id in p.buffers && p.buffers[l.id].Sliced?
    requires var ptr := p.mapped[l.id].base + l.offset; ptr in live && Holds(p, l.id, ptr, live[ptr])
    ensures CanRelease(p, l)
    ensures var q := ReleaseSliced(p, l);
            && q.active == p.active && q.free == p.free
            && (forall i :: i in p.mapped && i != l.id ==> Stays(p, q, i))
            && (forall i :: i in q.mapped ==> i in p.mapped)
            && (l.id in q.mapped <==> p.active == Some(l.id) || AnotherLive(p, l))
  {
    var size := live[p.mapped[l.id].base + l.offset];
    FreedSlice(p, l, live);
    FreedCore(p, l, size);
    var freed := WithFreed(p, l);
    assert BufferOk(freed, l.id) && BufferOk(p, l.id);
    AnyAllocatedIffLive(freed.buffers[l.id].regions, freed.buffers[l.id].size);
    var was, now := Live(p.buffers[l.id].regions.spans), Live(freed.buffers[l.id].regions.spans);
    OthersLive(p.buffers[l.id].regions, p.buffers[l.id].size, Interval(l.offset, size));
    assert now != {} <==> exists a :: a in was && a.offset != l.offset;
  }

  lemma OthersLive(r: Regions, size: nat, released: Interval)
    requires Inv(r, size) && released in Live(r.spans)
    ensures Live(r.spans) - {released} != {} <==> exists a :: a in Live(r.spans) && a.offset != released.offset
  {
    if a :| a in Live(r.spans) && a.offset != released.offset {
      assert a in Live(r.spans) - {released};
    }
    if a :| a in Live(r.spans) - {released} {
      LiveDisjoint(r, size, a, released);
    }
  }
}
