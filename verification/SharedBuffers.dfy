// SharedBufferSet and SharedBufferSetAllocator, proved to do to their fields
// what BufferPool says is done to the pool.

module SharedBuffers {
  import opened Options
  import opened OrderedKeys
  import opened FifoRegions
  import opened TransportSteps
  import opened BufferPool
  import opened BufferPoolInvariant
  import opened BufferPoolReuse

  lemma FirstFreeIs(used: set<nat>, id: nat)
    requires id !in used && forall i :: 0 <= i < id ==> i in used
    ensures FirstFree(used, 0) == id
  {
  }

  class SharedBufferSet {
    var buffers: seq<Option<Mapping>>
    var idsByBase: map<nat, nat>

    /** The mapped buffers by id. */
    ghost var contents: map<nat, Mapping>

    /** The address index lists exactly the mapped buffers, and mappings are apart. */
    ghost predicate Valid()
      reads this
    {
      && (forall id: nat :: id in contents <==> id < |buffers| && buffers[id].Some?)
      && (forall id :: id in contents ==> contents[id] == buffers[id].value)
      && MappingsInv(EMPTY.(mapped := contents))
      && (forall id :: id in contents ==> contents[id].base in idsByBase && idsByBase[contents[id].base] == id)
      && (forall base :: base in idsByBase ==> idsByBase[base] in contents && contents[idsByBase[base]].base == base)
    }

    constructor ()
      ensures Valid() && contents == map[]
    {
      buffers, idsByBase, contents := [], map[], map[];
    }

    /** The first unused id; the vector grows if there is none. */
    method AllocateBufferId() returns (id: nat)
      requires Valid()
      modifies this
      ensures Valid() && contents == old(contents)
      ensures id < |buffers| && buffers[id].None? && id == FirstFree(contents.Keys, 0)
    {
      id := 0;
      while id < |buffers|
        invariant id <= |buffers|
        invariant forall i :: 0 <= i < id ==> buffers[i].Some?
      {
        if buffers[id].None? {
          FirstFreeIs(contents.Keys, id);
          return;
        }
        id := id + 1;
      }
      buffers := buffers + [None];
      FirstFreeIs(contents.Keys, id);
    }

    /** Enters a mapping under an unused id. */
    method AddMapping(id: nat, m: Mapping)
      requires Valid() && id < |buffers| && buffers[id].None?
      requires Grantable(EMPTY.(mapped := contents), m, 1)
      modifies this
      ensures Valid() && contents == old(contents)[id := m]
    {
      idsByBase := idsByBase[m.base := id];
      buffers := buffers[id := Some(m)];
      contents := contents[id := m];
    }

    /** Adds a buffer that the other party created, if the system grants the mapping. */
    method AddBuffer(id: nat, granted: Option<Mapping>) returns (ok: bool)
      requires Valid() && id !in contents
      requires granted.Some? ==> Grantable(EMPTY.(mapped := contents), granted.value, 1)
      modifies this
      ensures Valid() && ok == granted.Some?
      ensures contents == if ok then old(contents)[id := granted.value] else old(contents)
    {
      if id >= |buffers| {
        buffers := buffers + seq(id + 1 - |buffers|, _ => None);
      }
      if granted.None? {
        return false;
      }
      AddMapping(id, granted.value);
      return true;
    }

    /** Creates a buffer under the first unused id, if the system grants the mapping. */
    method CreateNewBuffer(size: nat, granted: Option<Mapping>) returns (created: Option<nat>)
      requires Valid() && size != 0
      requires granted.Some? ==> Grantable(EMPTY.(mapped := contents), granted.value, size)
      modifies this
      ensures Valid() && created.Some? == granted.Some?
      ensures created.None? ==> contents == old(contents)
      ensures created.Some? ==> created.value == FirstFree(old(contents).Keys, 0)
                                && contents == old(contents)[created.value := granted.value]
    {
      var id := AllocateBufferId();
      if granted.None? {
        return None;
      }
      AddMapping(id, granted.value);
      return Some(id);
    }

    method RemoveBuffer(id: nat)
      requires Valid() && id in contents
      modifies this
      ensures Valid() && contents == old(contents) - {id}
    {
      idsByBase := idsByBase - {buffers[id].value.base};
      buffers := buffers[id := None];
      contents := contents - {id};
    }

    /** Whether a locator and a size describe a region within a mapped buffer. */
    method Validate(locator: Option<Locator>, size: nat) returns (ok: bool)
      requires Valid()
      ensures ok <==> locator.Some? && locator.value.id in contents
                      && locator.value.offset < contents[locator.value.id].size
                      && locator.value.offset + size <= contents[locator.value.id].size
    {
      if locator.None? || locator.value.id >= |buffers| {
        return false;
      }
      var buffer := buffers[locator.value.id];
      if buffer.None? {
        return false;
      }
      return locator.value.offset < buffer.value.size && size <= buffer.value.size - locator.value.offset;
    }

    /** Translates a locator into an address, which is 0 for a null locator. */
    method PtrFromLocator(locator: Option<Locator>) returns (ptr: nat)
      requires Valid()
      requires locator.Some? ==> locator.value.id in contents && locator.value.offset < contents[locator.value.id].size
      ensures ptr == if locator.None? then 0 else contents[locator.value.id].base + locator.value.offset
      ensures locator.Some? ==> ptr != 0
    {
      if locator.None? {
        return 0;
      }
      assert locator.value.id in contents;
      return buffers[locator.value.id].value.base + locator.value.offset;
    }

    /** Whether an address lies within a mapped buffer. */
    ghost predicate Maps(ptr: nat)
      reads this
    {
      exists id :: id in contents && contents[id].base <= ptr < contents[id].base + contents[id].size
    }

    /** Translates an address within a mapped buffer into the one locator for it; 0 gives none. */
    method LocatorFromPtr(ptr: nat) returns (locator: Option<Locator>)
      requires Valid() && (ptr != 0 ==> Maps(ptr))
      ensures locator.None? <==> ptr == 0
      ensures locator.Some? ==>
                var l := locator.value;
                l.id in contents && l.offset < contents[l.id].size && ptr == contents[l.id].base + l.offset
    {
      if ptr == 0 {
        return None;
      }
      ghost var holder :| holder in contents &&
          contents[holder].base <= ptr < contents[holder].base + contents[holder].size;
      var base := FloorKey(idsByBase.Keys, ptr);
      assert base.Some?;
      var id := idsByBase[base.value];
      assert id in contents;
      assert id == holder;
      return Some(Locator(id, ptr - buffers[id].value.base));
    }
  }

  predicate InMapping(mapped: map<nat, Mapping>, l: Locator) {
    l.id in mapped && l.offset < mapped[l.id].size
  }

  /** An address has one locator, so translating back and forth is the identity. */
  lemma LocatorUnique(mapped: map<nat, Mapping>, l: Locator, l': Locator)
    requires MappingsInv(EMPTY.(mapped := mapped)) && InMapping(mapped, l) && InMapping(mapped, l')
    requires mapped[l.id].base + l.offset == mapped[l'.id].base + l'.offset
    ensures l == l'
  {
    assert l.id == l'.id || Separate(mapped[l.id], mapped[l'.id]);
  }

  /** What the allocator knows of a buffer; without regions it is used as a whole. */
  datatype Slot = Slot(size: nat, regions: Option<Regions>)

  function ToBuffer(s: Slot): Buffer {
    if s.regions.None? then Whole(s.size) else Sliced(s.size, s.regions.value)
  }

  /** A slot describes its buffer, and one without a buffer has no regions. */
  predicate SlotOk(slots: seq<Slot>, buffers: map<nat, Buffer>, id: nat) {
    if id in buffers then id < |slots| && ToBuffer(slots[id]) == buffers[id]
    else id < |slots| ==> slots[id].regions.None?
  }

  /** The slots, extended as far as needed, with one replaced. */
  function WithSlot(slots: seq<Slot>, id: nat, slot: Slot): (t: seq<Slot>)
    ensures |t| == (if |slots| <= id then id + 1 else |slots|)
    ensures forall i :: 0 <= i < |t| ==>
              t[i] == if i == id then slot else if i < |slots| then slots[i] else Slot(0, None)
    decreases id + 1 - |slots|
  {
    if |slots| <= id then WithSlot(slots + [Slot(0, None)], id, slot) else slots[id := slot]
  }

  lemma WithSlotOk(slots: seq<Slot>, buffers: map<nat, Buffer>, id: nat, slot: Slot)
    requires forall i: nat {:trigger SlotOk(slots, buffers, i)} :: SlotOk(slots, buffers, i)
    ensures var t, b := WithSlot(slots, id, slot), buffers[id := ToBuffer(slot)];
            forall i: nat {:trigger SlotOk(t, b, i)} :: SlotOk(t, b, i)
  {
    var t, b := WithSlot(slots, id, slot), buffers[id := ToBuffer(slot)];
    forall i: nat
      ensures SlotOk(t, b, i)
    {
      assert SlotOk(slots, buffers, i);
    }
  }

  /** Every free buffer is mapped, and listed once. */
  predicate Deletable(p: Pool) {
    && (forall k :: 0 <= k < |p.free| ==> p.free[k].id in p.mapped)
    && (forall j, k :: 0 <= j < k < |p.free| ==> p.free[j].id != p.free[k].id)
  }

  lemma DeletableTail(p: Pool)
    requires Deletable(p) && p.free != []
    ensures Deletable(EvictFirst(p))
  {
  }

  class SharedBufferSetAllocator {
    const set_: SharedBufferSet
    var slots: seq<Slot>
    var free: seq<FreeBuffer>
    var active: Option<nat>
    var updates: seq<BufferUpdate>

    /** The addresses handed out and not released, with the sizes asked for. */
    ghost var live: map<nat, nat>

    /** The buffer set of a party that has applied every update polled so far. */
    ghost var peer: map<nat, nat>

    /** The state as a value. */
    ghost var pool: Pool

    ghost predicate Shape()
      reads this, set_
    {
      && set_.Valid() && pool.mapped == set_.contents
      && pool.buffers.Keys == pool.mapped.Keys
      && (forall id: nat {:trigger SlotOk(slots, pool.buffers, id)} :: SlotOk(slots, pool.buffers, id))
      && pool.free == free && pool.active == active && pool.updates == updates
    }

    ghost predicate Valid()
      reads this, set_
    {
      Shape() && PoolInv(pool, live, peer)
    }

    constructor ()
      ensures Valid() && fresh(set_) && pool == EMPTY && live == map[] && peer == map[]
    {
      set_ := new SharedBufferSet();
      slots, free, active, updates := [], [], None, [];
      pool, live, peer := EMPTY, map[], map[];
    }

    // ----- buffers

    method CreateBuffer(whole: bool, size: nat, granted: Option<Mapping>) returns (created: Option<nat>)
      requires Shape() && size != 0
      requires granted.Some? ==> Grantable(pool, granted.value, size)
      modifies this, set_
      ensures Shape() && created.Some? == granted.Some?
      ensures created.None? ==> pool == old(pool)
      ensures created.Some? ==>
                && created.value == NewId(old(pool))
                && pool == BufferPool.CreateBuffer(old(pool),
                      if whole then Whole(size) else Sliced(size, Initial(size)),
                                                   granted.value)
      ensures live == old(live) && peer == old(peer)
    {
      created := set_.CreateNewBuffer(size, granted);
      if created.Some? {
        AddSlot(created.value, Slot(size, if whole then None else Some(Initial(size))), granted.value);
      }
    }

    /** Enters a buffer that has just been mapped. */
    method AddSlot(id: nat, slot: Slot, m: Mapping)
      requires set_.Valid() && id == NewId(pool) && set_.contents == pool.mapped[id := m]
      requires pool.buffers.Keys == pool.mapped.Keys
      requires pool.free == free && pool.active == active && pool.updates == updates
      requires forall i: nat {:trigger SlotOk(slots, pool.buffers, i)} :: SlotOk(slots, pool.buffers, i)
      modifies `slots, `updates, `pool
      ensures Shape() && pool == BufferPool.CreateBuffer(old(pool), ToBuffer(slot), m)
    {
      ghost var was, b := slots, pool.buffers[id := ToBuffer(slot)];
      WithSlotOk(was, pool.buffers, id, slot);
      slots := WithSlot(slots, id, slot);
      updates := updates + [Add(id, m.size)];
      pool := BufferPool.CreateBuffer(pool, ToBuffer(slot), m);
      forall i: nat
        ensures SlotOk(slots, pool.buffers, i)
      {
        assert SlotOk(WithSlot(was, id, slot), b, i);
      }
    }

    method DeleteBuffer(id: nat)
      requires Shape() && id in set_.contents
      modifies this, set_
      ensures Shape() && pool == BufferPool.DeleteBuffer(old(pool), id)
      ensures live == old(live) && peer == old(peer)
    {
      assert SlotOk(slots, pool.buffers, id);
      set_.RemoveBuffer(id);
      ghost var was := slots;
      slots := slots[id := Slot(0, None)];
      updates := updates + [Remove(id)];
      pool := BufferPool.DeleteBuffer(pool, id);
      forall i: nat
        ensures SlotOk(slots, pool.buffers, i)
      {
        assert SlotOk(was, old(pool.buffers), i);
      }
    }

    method MaybeDeleteSlicedBuffer(id: nat)
      requires Shape() && id in pool.buffers && pool.buffers[id].Sliced?
      modifies this, set_
      ensures Shape() && pool == MaybeDelete(old(pool), id)
      ensures live == old(live) && peer == old(peer)
    {
      assert SlotOk(slots, pool.buffers, id);
      if !AnyAllocated(slots[id].regions.value) {
        DeleteBuffer(id);
      }
    }

    method SetSlotRegions(id: nat, regions: Regions)
      requires Shape() && id in pool.buffers && pool.buffers[id].Sliced?
      modifies `slots, `pool
      ensures Shape() && pool == SetRegions(old(pool), id, regions)
    {
      assert SlotOk(slots, pool.buffers, id);
      ghost var was := slots;
      slots := slots[id := slots[id].(regions := Some(regions))];
      pool := SetRegions(pool, id, regions);
      forall i: nat
        ensures SlotOk(slots, pool.buffers, i)
      {
        assert SlotOk(was, old(pool.buffers), i);
      }
    }

    // ----- the two strategies

    /** Deletes the free whole buffers that are too small. */
    method EvictSmaller(size: nat)
      requires Shape() && Deletable(pool)
      modifies this, set_
      ensures Shape() && pool == Evict(old(pool), size)
      ensures live == old(live) && peer == old(peer)
    {
      while free != [] && free[0].size < size
        invariant Shape() && Deletable(pool) && live == old(live) && peer == old(peer)
        invariant Evict(pool, size) == Evict(old(pool), size)
        decreases |free|
      {
        EvictSmallest();
      }
    }

    method EvictSmallest()
      requires Shape() && Deletable(pool) && free != []
      modifies this, set_
      ensures Shape() && Deletable(pool) && pool == EvictFirst(old(pool))
      ensures live == old(live) && peer == old(peer)
    {
      DeletableTail(pool);
      DeleteBuffer(free[0].id);
      free := free[1..];
      pool := pool.(free := free);
    }

    method AllocateWholeRegion(size: nat, granted: Option<Mapping>) returns (locator: Option<Locator>)
      requires Shape() && Deletable(pool) && size != 0
      requires granted.Some? ==> Grantable(Evict(pool, size), granted.value, size)
      modifies this, set_
      ensures Shape() && (pool, locator) == AllocateWhole(old(pool), size, granted)
      ensures live == old(live) && peer == old(peer)
    {
      EvictSmaller(size);
      if free != [] {
        locator := Some(Locator(free[0].id, 0));
        free := free[1..];
        pool := pool.(free := free);
        return;
      }
      var created := CreateBuffer(true, size, granted);
      if created.None? {
        return None;
      }
      return Some(Locator(created.value, 0));
    }

    /** Tries to allocate from the active sliced buffer. */
    method AllocateFromActive(size: nat) returns (locator: Option<Locator>)
      requires Shape() && active.Some? && IsSliced(pool, active.value)
      modifies `slots, `pool
      ensures Shape() && (pool, locator) == AllocateFrom(old(pool), active.value, size)
    {
      var id := active.value;
      assert SlotOk(slots, pool.buffers, id);
      var (regions, offset) := Allocate(slots[id].regions.value, size);
      if offset.None? {
        return None;
      }
      SetSlotRegions(id, regions);
      return Some(Locator(id, offset.value));
    }

    method AllocateSlicedRegion(size: nat, granted: Option<Mapping>) returns (locator: Option<Locator>)
      requires Shape() && size != 0
      requires active.Some? ==> IsSliced(pool, active.value)
      requires granted.Some? ==> Grantable(pool, granted.value, SlicedSize(pool, size))
      modifies this, set_
      ensures Shape() && live == old(live) && peer == old(peer)
      ensures (pool, locator) == AllocateSliced(old(pool), size, granted)
    {
      if active.Some? {
        locator := AllocateFromActive(size);
        if locator.Some? {
          return;
        }
      }
      locator := AllocateFromNewBuffer(size, granted);
    }

    /** Creates a larger buffer for slicing, makes it active and allocates from it. */
    method AllocateFromNewBuffer(size: nat, granted: Option<Mapping>) returns (locator: Option<Locator>)
      requires Shape() && size != 0
      requires active.Some? ==> IsSliced(pool, active.value)
      requires granted.Some? ==> Grantable(pool, granted.value, SlicedSize(pool, size))
      modifies this, set_
      ensures Shape() && live == old(live) && peer == old(peer)
      ensures granted.None? ==> pool == old(pool) && locator == None
      ensures granted.Some? ==>
                (pool, locator) == AllocateFrom(ReplaceActive(old(pool), size, granted.value), NewId(old(pool)), size)
    {
      var replaced := ReplaceActiveBuffer(size, granted);
      if !replaced {
        return None;
      }
      locator := AllocateFromActive(size);
    }

    method ReplaceActiveBuffer(size: nat, granted: Option<Mapping>) returns (replaced: bool)
      requires Shape() && size != 0
      requires active.Some? ==> IsSliced(pool, active.value)
      requires granted.Some? ==> Grantable(pool, granted.value, SlicedSize(pool, size))
      modifies this, set_
      ensures Shape() && live == old(live) && peer == old(peer) && replaced == granted.Some?
      ensures pool == if replaced then ReplaceActive(old(pool), size, granted.value) else old(pool)
    {
      assert active.Some? ==> SlotOk(slots, pool.buffers, active.value);
      var newSize := size * SLICED_BUFFER_INITIAL_SIZE_MULTIPLIER;
      if active.Some? && slots[active.value].size * SLICED_BUFFER_GROW_MULTIPLIER > newSize {
        newSize := slots[active.value].size * SLICED_BUFFER_GROW_MULTIPLIER;
      }
      var created := CreateBuffer(false, newSize, granted);
      if created.None? {
        return false;
      }
      if active.Some? {
        MaybeDeleteSlicedBuffer(active.value);
      }
      active := created;
      pool := pool.(active := active);
      return true;
    }

    /** Allocates a region and returns its address, or 0 if the system grants no buffer for it. */
    method AllocateRegion(size: nat, granted: Option<Mapping>) returns (ptr: nat)
      requires Valid() && size != 0 && MayGrant(pool, size, granted)
      modifies this, set_
      ensures Valid() && peer == old(peer)
      ensures ptr == 0 <==> granted.None? && !CanReuse(old(pool), size)
      ensures ptr == 0 ==> live == old(live)
      ensures ptr != 0 ==> ptr !in old(live) && live == old(live)[ptr := size]
      ensures (ActiveIsSliced(old(pool), old(live), old(peer));
               pool == BufferPool.AllocateRegion(old(pool), size, granted).0)
    {
      ActiveIsSliced(pool, live, peer);
      AllocateReuses(pool, size, granted);
      var locator := AllocateLocator(size, granted);
      ptr := HandOut(locator, size);
    }

    /** The address of a new region, which is live from now on. */
    method HandOut(locator: Option<Locator>, ghost size: nat) returns (ptr: nat)
      requires Shape() && Allocated(pool, locator, size, live, peer)
      modifies `live
      ensures Valid() && (ptr == 0 <==> locator.None?) && (ptr !in old(live) || ptr == 0)
      ensures live == if ptr == 0 then old(live) else old(live)[ptr := size]
    {
      ptr := set_.PtrFromLocator(locator);
      AllocatedAt(pool, locator, size, live, peer, ptr);
      live := if ptr == 0 then live else live[ptr := size];
    }

    /** Allocates by the strategy that the size calls for. */
    method AllocateLocator(size: nat, granted: Option<Mapping>) returns (locator: Option<Locator>)
      requires Shape() && PoolInv(pool, live, peer) && size != 0 && MayGrant(pool, size, granted)
      requires active.Some? ==> IsSliced(pool, active.value)
      modifies this, set_
      ensures Shape() && live == old(live) && peer == old(peer)
      ensures Allocated(pool, locator, size, live, peer)
      ensures (pool, locator) == BufferPool.AllocateRegion(old(pool), size, granted)
    {
      ghost var p := pool;
      if size >= WHOLE_REGION_MINIMUM_SIZE {
        AllocateWholeKeeps(p, size, granted, live, peer);
        locator := AllocateWholeRegion(size, granted);
      } else {
        AllocateSlicedKeeps(p, size, granted, live, peer);
        locator := AllocateSlicedRegion(size, granted);
      }
    }

    // ----- release

    /** Releases a region that is live. */
    method ReleaseRegion(ptr: nat)
      requires Valid() && ptr in live
      modifies this, set_
      ensures Valid() && peer == old(peer)
      ensures live == old(live) - {ptr}
      ensures exists l :: CanRelease(old(pool), l) && IsAddress(old(pool), l, ptr) && pool == Release(old(pool), l)
    {
      ghost var holder := LiveIsMapped(pool, ptr, live, peer);
      assert set_.Maps(ptr);
      var locator := set_.LocatorFromPtr(ptr);
      ReleaseLocatorKeeps(pool, locator.value, live, peer);
      ReleaseLocator(locator.value, ptr);
    }

    method ReleaseLocator(l: Locator, ghost ptr: nat)
      requires Shape() && CanRelease(pool, l) && PoolInv(Release(pool, l), live - {ptr}, peer)
      modifies this, set_
      ensures Valid() && pool == Release(old(pool), l)
      ensures live == old(live) - {ptr} && peer == old(peer)
    {
      assert SlotOk(slots, pool.buffers, l.id);
      if slots[l.id].regions.None? {
        ReleaseWholeRegion(l.id);
      } else {
        ReleaseSlicedRegion(l);
      }
      live := live - {ptr};
    }

    method ReleaseWholeRegion(id: nat)
      requires Shape() && id in pool.buffers && pool.buffers[id].Whole?
      modifies `free, `pool
      ensures Shape() && pool == ReleaseWhole(old(pool), id)
    {
      assert SlotOk(slots, pool.buffers, id);
      free := InsertFree(free, FreeBuffer(slots[id].size, id));
      pool := pool.(free := free);
    }

    method ReleaseSlicedRegion(l: Locator)
      requires Shape() && CanRelease(pool, l) && pool.buffers[l.id].Sliced?
      modifies this, set_
      ensures Shape() && pool == ReleaseSliced(old(pool), l)
      ensures live == old(live) && peer == old(peer)
    {
      assert SlotOk(slots, pool.buffers, l.id);
      var regions := slots[l.id].regions.value;
      SetSlotRegions(l.id, ReleaseAt(regions, Find(regions, l.offset).value));
      if active != Some(l.id) {
        MaybeDeleteSlicedBuffer(l.id);
      }
    }

    // ----- updates

    /** The first queued update, if there is one; the peer can always apply it. */
    method PollForBufferUpdate() returns (update: Option<BufferUpdate>)
      requires Valid()
      modifies this
      ensures Valid() && live == old(live)
      ensures update.None? ==> old(updates) == [] && peer == old(peer) == Sizes(pool)
      ensures update.Some? ==> Applicable(old(peer), update.value) && peer == Apply(old(peer), update.value)
                               && [update.value] + updates == old(updates)
    {
      if updates == [] {
        return None;
      }
      update := Some(updates[0]);
      peer := Apply(peer, updates[0]);
      updates := updates[1..];
      pool := pool.(updates := updates);
      PolledInv(old(pool), pool, live, old(peer));
    }
  }

  /** A mapping that the system may grant to an allocation of this size, if it is asked for one. */
  ghost predicate MayGrant(p: Pool, size: nat, granted: Option<Mapping>)
    requires p.active.Some? ==> p.active.value in p.buffers
  {
    granted.Some? ==>
      if size >= WHOLE_REGION_MINIMUM_SIZE then Grantable(Evict(p, size), granted.value, size)
      else Grantable(p, granted.value, SlicedSize(p, size))
  }

  /** The locator stands for the address. */
  predicate IsAddress(p: Pool, l: Locator, ptr: nat) {
    l.id in p.mapped && l.offset < p.mapped[l.id].size && ptr == p.mapped[l.id].base + l.offset
  }

  /** What an allocation means for the address that its locator stands for, 0 if there is none. */
  lemma AllocatedAt(q: Pool, locator: Option<Locator>, size: nat, live: map<nat, nat>, peer: map<nat, nat>, ptr: nat)
    requires Allocated(q, locator, size, live, peer)
    requires locator.None? ==> ptr == 0
    requires locator.Some? ==> ptr != 0 && ptr == q.mapped[locator.value.id].base + locator.value.offset
    ensures ptr == 0 <==> locator.None?
    ensures ptr !in live || ptr == 0
    ensures PoolInv(q, if ptr == 0 then live else live[ptr := size], peer)
  {
  }

  lemma ActiveIsSliced(p: Pool, live: map<nat, nat>, peer: map<nat, nat>)
    requires PoolInv(p, live, peer)
    ensures p.active.Some? ==> IsSliced(p, p.active.value)
  {
    assert p.active.Some? ==> BufferOk(p, p.active.value);
  }

  /** Every live address lies within a mapping. */
  lemma LiveIsMapped(p: Pool, ptr: nat, live: map<nat, nat>, peer: map<nat, nat>) returns (id: nat)
    requires PoolInv(p, live, peer) && ptr in live
    ensures id in p.mapped && p.mapped[id].base <= ptr < p.mapped[id].base + p.mapped[id].size
    ensures ptr != 0
  {
    id :| Holds(p, id, ptr, live[ptr]);
    HoldsWithin(p, id, ptr, live[ptr]);
  }

  lemma PolledInv(p: Pool, q: Pool, live: map<nat, nat>, peer: map<nat, nat>)
    requires PoolInv(p, live, peer) && p.updates != [] && q == p.(updates := p.updates[1..])
    ensures PoolInv(q, live, Apply(peer, p.updates[0]))
  {
    forall i | i in q.buffers
      ensures BufferOk(q, i)
    {
      assert BufferOk(p, i);
    }
    forall i | i in q.buffers && q.buffers[i].Sliced? && q.active != Some(i)
      ensures HasLive(q, i)
    {
      assert HasLive(p, i);
    }
    forall i, a, n
      ensures Holds(p, i, a, n) <==> Holds(q, i, a, n)
    {
      assert IsFree(q, i) <==> IsFree(p, i);
    }
    SameLive(p, q, live);
    assert Sizes(q) == Sizes(p);
  }

}
