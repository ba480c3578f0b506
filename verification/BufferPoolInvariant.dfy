// Every operation on the buffer pool keeps its invariant and changes what is
// live by exactly the region allocated or released.

module BufferPoolInvariant {
  import opened Options
  import opened FifoRegions
  import opened TransportSteps
  import opened BufferPool

  // ----- buffer updates

  lemma {:induction false} ReplaysAppend(buffers: map<nat, nat>, updates: seq<BufferUpdate>, result: map<nat, nat>,
                                         u: BufferUpdate)
    requires Replays(buffers, updates, result) && Applicable(result, u)
    ensures Replays(buffers, updates + [u], Apply(result, u))
    decreases |updates|
  {
    if updates == [] {
      assert [u][1..] == [];
    } else {
      assert (updates + [u])[1..] == updates[1..] + [u];
      ReplaysAppend(Apply(buffers, updates[0]), updates[1..], result, u);
    }
  }

  lemma CreateReplays(p: Pool, buffer: Buffer, m: Mapping, peer: map<nat, nat>)
    requires Replays(peer, p.updates, Sizes(p))
    ensures Replays(peer, CreateBuffer(p, buffer, m).updates, Sizes(CreateBuffer(p, buffer, m)))
  {
    var u := Add(NewId(p), m.size);
    ReplaysAppend(peer, p.updates, Sizes(p), u);
    assert Apply(Sizes(p), u) == Sizes(CreateBuffer(p, buffer, m));
  }

  lemma DeleteReplays(p: Pool, id: nat, peer: map<nat, nat>)
    requires Replays(peer, p.updates, Sizes(p)) && id in p.mapped
    ensures Replays(peer, DeleteBuffer(p, id).updates, Sizes(DeleteBuffer(p, id)))
  {
    ReplaysAppend(peer, p.updates, Sizes(p), Remove(id));
    assert Apply(Sizes(p), Remove(id)) == Sizes(DeleteBuffer(p, id));
  }

  // ----- creating and deleting buffers

  ghost predicate Core(p: Pool) {
    MappingsInv(p) && BuffersInv(p) && FreeInv(p)
  }

  lemma CreateCore(p: Pool, buffer: Buffer, m: Mapping)
    requires Core(p) && Grantable(p, m, buffer.size) && buffer.size > 0
    requires buffer.Sliced? ==> Inv(buffer.regions, buffer.size)
    ensures Core(CreateBuffer(p, buffer, m))
    ensures NewId(p) !in p.mapped
  {
    var q := CreateBuffer(p, buffer, m);
    CreateBuffersOk(p, buffer, m);
    forall i, j | i in q.mapped && j in q.mapped && i != j
      ensures Separate(q.mapped[i], q.mapped[j])
    {
      assert i != NewId(p) && j != NewId(p) ==> Separate(p.mapped[i], p.mapped[j]);
    }
  }

  lemma CreateBuffersOk(p: Pool, buffer: Buffer, m: Mapping)
    requires BuffersInv(p) && 0 < buffer.size <= m.size
    requires buffer.Sliced? ==> Inv(buffer.regions, buffer.size)
    ensures BuffersInv(CreateBuffer(p, buffer, m))
  {
    var q := CreateBuffer(p, buffer, m);
    forall i | i in q.buffers
      ensures BufferOk(q, i)
    {
      assert i != NewId(p) ==> BufferOk(p, i);
    }
  }

  lemma DeleteCore(p: Pool, id: nat)
    requires MappingsInv(p) && BuffersInv(p)
    ensures MappingsInv(DeleteBuffer(p, id)) && BuffersInv(DeleteBuffer(p, id))
  {
    var q := DeleteBuffer(p, id);
    forall i | i in q.buffers
      ensures BufferOk(q, i)
    {
      assert BufferOk(p, i);
    }
  }

  /** Two pools hold the same live regions. */
  ghost predicate SameHolds(p: Pool, q: Pool) {
    forall i, ptr, size {:trigger Holds(p, i, ptr, size)} {:trigger Holds(q, i, ptr, size)} ::
      Holds(p, i, ptr, size) <==> Holds(q, i, ptr, size)
  }

  lemma SameLive(p: Pool, q: Pool, live: map<nat, nat>)
    requires LiveInv(p, live) && SameHolds(p, q)
    requires forall i, ptr, size {:trigger Holds(p, i, ptr, size)} ::
               Holds(p, i, ptr, size) && q.buffers[i].Sliced? ==> p.buffers[i].Sliced?
    ensures LiveInv(q, live)
  {
    forall ptr | ptr in live
      ensures exists i :: Holds(q, i, ptr, live[ptr])
    {
      var i :| Holds(p, i, ptr, live[ptr]);
      assert Holds(q, i, ptr, live[ptr]);
    }
    forall i, ptr, size | Holds(q, i, ptr, size)
      ensures ptr in live && (q.buffers[i].Sliced? ==> live[ptr] == size)
    {
      assert Holds(p, i, ptr, size);
    }
  }

  // ----- the whole strategy

  /** Deletes the first free buffer. */
  function EvictFirst(p: Pool): Pool
    requires p.free != []
  {
    DeleteBuffer(p, p.free[0].id).(free := p.free[1..])
  }

  lemma EvictFirstCore(p: Pool)
    requires Core(p) && p.free != []
    ensures Core(EvictFirst(p)) && p.free[0].id in p.mapped
    ensures SameHolds(p, EvictFirst(p))
  {
    var id, q := p.free[0].id, EvictFirst(p);
    DeleteCore(p, id);
    forall i | i in q.buffers
      ensures BufferOk(q, i)
    {
      assert BufferOk(DeleteBuffer(p, id), i);
    }
    FreeTail(p, id);
    assert IsFree(p, id);
  }

  lemma FreeTail(p: Pool, id: nat)
    requires FreeInv(p) && p.free != [] && id == p.free[0].id
    ensures forall i :: IsFree(p.(free := p.free[1..]), i) <==> IsFree(p, i) && i != id
  {
    var q := p.(free := p.free[1..]);
    forall i | IsFree(p, i) && i != id
      ensures IsFree(q, i)
    {
      var k :| 0 <= k < |p.free| && p.free[k].id == i;
      assert q.free[k - 1].id == i;
    }
    forall i | IsFree(q, i)
      ensures IsFree(p, i) && i != id
    {
      var k :| 0 <= k < |q.free| && q.free[k].id == i;
      assert p.free[k + 1].id == i;
    }
  }

  lemma {:induction false} EvictKeeps(p: Pool, size: nat, live: map<nat, nat>, peer: map<nat, nat>)
    requires PoolInv(p, live, peer)
    ensures PoolInv(Evict(p, size), live, peer)
    ensures forall f :: f in Evict(p, size).free ==> f.size >= size
    decreases |p.free|
  {
    if p.free != [] && p.free[0].size < size {
      EvictFirstKeeps(p, live, peer);
      EvictKeeps(EvictFirst(p), size, live, peer);
    }
  }

  lemma EvictFirstKeeps(p: Pool, live: map<nat, nat>, peer: map<nat, nat>)
    requires PoolInv(p, live, peer) && p.free != []
    ensures PoolInv(EvictFirst(p), live, peer)
  {
    var q := EvictFirst(p);
    EvictFirstCore(p);
    SameLive(p, q, live);
    DeleteReplays(p, p.free[0].id, peer);
    assert Sizes(q) == Sizes(DeleteBuffer(p, p.free[0].id));
    forall i | i in q.buffers && q.buffers[i].Sliced? && q.active != Some(i)
      ensures HasLive(q, i)
    {
      assert HasLive(p, i);
    }
  }

  /** Adds one live region: buffer id comes to hold size at ptr, and nothing else changes. */
  lemma LiveAdded(p: Pool, q: Pool, live: map<nat, nat>, id: nat, ptr: nat, size: nat)
    requires LiveInv(p, live) && MappingsInv(q) && BuffersInv(q)
    requires Holds(q, id, ptr, size)
    requires forall i, a, n {:trigger Holds(q, i, a, n)} ::
               Holds(q, i, a, n) ==>
                 (i == id && a == ptr) || (Holds(p, i, a, n) && (q.buffers[i].Sliced? ==> p.buffers[i].Sliced?))
    requires forall i, a, n {:trigger Holds(p, i, a, n)} ::
               Holds(p, i, a, n) ==> Holds(q, i, a, n) && !(i == id && a == ptr)
    ensures LiveInv(q, live[ptr := size])
    ensures ptr !in live
  {
    if ptr in live {
      var i :| Holds(p, i, ptr, live[ptr]);
      HoldsUnique(q, i, live[ptr], id, size, ptr);
    }
    var live' := live[ptr := size];
    forall a | a in live'
      ensures exists i :: Holds(q, i, a, live'[a])
    {
      if a != ptr {
        var i :| Holds(p, i, a, live[a]);
        assert Holds(q, i, a, live'[a]);
      }
    }
    forall i, a, n | Holds(q, i, a, n)
      ensures a in live' && (q.buffers[i].Sliced? ==> live'[a] == n)
    {
      if a == ptr {
        HoldsUnique(q, i, n, id, size, ptr);
      } else {
        assert Holds(p, i, a, n);
      }
    }
  }

  /** Removes one live region: nothing holds ptr any longer. */
  lemma LiveRemoved(p: Pool, q: Pool, live: map<nat, nat>, ptr: nat)
    requires LiveInv(p, live)
    requires forall i, a, n {:trigger Holds(q, i, a, n)} ::
               Holds(q, i, a, n) ==> Holds(p, i, a, n) && a != ptr && (q.buffers[i].Sliced? ==> p.buffers[i].Sliced?)
    requires forall i, a, n {:trigger Holds(p, i, a, n)} :: Holds(p, i, a, n) && a != ptr ==> Holds(q, i, a, n)
    ensures LiveInv(q, live - {ptr})
  {
    var live' := live - {ptr};
    forall a | a in live'
      ensures exists i :: Holds(q, i, a, live'[a])
    {
      var i :| Holds(p, i, a, live[a]);
      assert Holds(q, i, a, live'[a]);
    }
    forall i, a, n | Holds(q, i, a, n)
      ensures a in live' && (q.buffers[i].Sliced? ==> live'[a] == n)
    {
      assert Holds(p, i, a, n);
    }
  }

  lemma ReuseFreeKeeps(p: Pool, size: nat, live: map<nat, nat>, peer: map<nat, nat>)
    requires PoolInv(p, live, peer) && p.free != [] && 0 < size <= p.free[0].size
    ensures var ptr := p.mapped[p.free[0].id].base;
            ptr !in live && PoolInv(p.(free := p.free[1..]), live[ptr := size], peer)
  {
    var id, q := p.free[0].id, p.(free := p.free[1..]);
    FreeTail(p, id);
    assert IsFree(p, id) && !IsFree(q, id);
    forall i | i in q.buffers
      ensures BufferOk(q, i)
    {
      assert BufferOk(p, i);
    }
    forall i | i in q.buffers && q.buffers[i].Sliced? && q.active != Some(i)
      ensures HasLive(q, i)
    {
      assert HasLive(p, i);
    }
    assert Sizes(q) == Sizes(p);
    assert Holds(q, id, p.mapped[id].base, size);
    LiveAdded(p, q, live, id, p.mapped[id].base, size);
  }

  lemma CreateWholeKeeps(p: Pool, size: nat, m: Mapping, live: map<nat, nat>, peer: map<nat, nat>)
    requires PoolInv(p, live, peer) && size > 0 && Grantable(p, m, size)
    ensures m.base !in live && PoolInv(CreateBuffer(p, Whole(size), m), live[m.base := size], peer)
  {
    var id, q := NewId(p), CreateBuffer(p, Whole(size), m);
    CreateCore(p, Whole(size), m);
    CreateReplays(p, Whole(size), m, peer);
    forall i | i in q.buffers && q.buffers[i].Sliced? && q.active != Some(i)
      ensures HasLive(q, i)
    {
      assert HasLive(p, i);
    }
    assert !IsFree(q, id);
    assert Holds(q, id, m.base, size);
    LiveAdded(p, q, live, id, m.base, size);
  }

  /** The outcome of an allocation: a new address that is live from now on, or none and no change in what is live. */
  ghost predicate Allocated(q: Pool, locator: Option<Locator>, size: nat, live: map<nat, nat>, peer: map<nat, nat>) {
    match locator
    case None => PoolInv(q, live, peer)
    case Some(l) =>
      && l.id in q.mapped && l.offset < q.mapped[l.id].size
      && var ptr := q.mapped[l.id].base + l.offset;
         ptr !in live && PoolInv(q, live[ptr := size], peer)
  }

  lemma AllocateWholeKeeps(p: Pool, size: nat, granted: Option<Mapping>, live: map<nat, nat>, peer: map<nat, nat>)
    requires PoolInv(p, live, peer) && size > 0
    requires granted.Some? ==> Grantable(Evict(p, size), granted.value, size)
    ensures var (q, locator) := AllocateWhole(p, size, granted);
            Allocated(q, locator, size, live, peer) && (locator.None? ==> granted.None?)
  {
    EvictKeeps(p, size, live, peer);
    var e := Evict(p, size);
    if e.free != [] {
      assert e.free[0] in e.free;
      ReuseFreeKeeps(e, size, live, peer);
    } else if granted.Some? {
      CreateWholeKeeps(e, size, granted.value, live, peer);
    }
  }

  // ----- the sliced strategy

  lemma AllocateFromKeeps(p: Pool, id: nat, size: nat, live: map<nat, nat>, peer: map<nat, nat>)
    requires PoolInv(p, live, peer) && IsSliced(p, id) && size > 0
    ensures var (q, locator) := AllocateFrom(p, id, size);
            Allocated(q, locator, size, live, peer) && (locator.None? ==> q == p)
  {
    var b := p.buffers[id];
    var (r, offset) := Allocate(b.regions, size);
    assert BufferOk(p, id);
    AllocateRefines(b.regions, size, b.size);
    if offset.Some? {
      AllocateKeeps(b.regions, size, b.size);
      SliceAllocated(p, id, r, offset.value, size, live, peer);
      assert AllocateFrom(p, id, size) == (SetRegions(p, id, r), Some(Locator(id, offset.value)));
    } else {
      assert AllocateFrom(p, id, size) == (p, None);
    }
  }

  lemma SliceAllocated(p: Pool, id: nat, r: Regions, offset: nat, size: nat, live: map<nat, nat>, peer: map<nat, nat>)
    requires PoolInv(p, live, peer) && IsSliced(p, id) && size > 0
    requires var b := p.buffers[id];
             && Inv(r, b.size) && HasRoomAt(Live(b.regions.spans), Interval(offset, size), b.size)
             && Live(r.spans) == Live(b.regions.spans) + {Interval(offset, size)}
    ensures Allocated(SetRegions(p, id, r), Some(Locator(id, offset)), size, live, peer)
  {
    var q := SetRegions(p, id, r);
    SetRegionsCore(p, id, r);
    SlicedAdded(p, q, id, offset, size, live);
    SlicedActive(p, q, id);
    assert Sizes(q) == Sizes(p);
    assert PoolInv(q, live[q.mapped[id].base + offset := size], peer);
  }

  /** A buffer that gains a live region leaves the rest as it is. */
  lemma SlicedActive(p: Pool, q: Pool, id: nat)
    requires ActiveInv(p) && IsSliced(p, id) && id in q.buffers && q.buffers[id].Sliced?
    requires q == SetRegions(p, id, q.buffers[id].regions)
    requires Live(p.buffers[id].regions.spans) <= Live(q.buffers[id].regions.spans)
    ensures ActiveInv(q)
  {
    forall i | i in q.buffers && q.buffers[i].Sliced? && q.active != Some(i)
      ensures HasLive(q, i)
    {
      assert HasLive(p, i);
    }
  }

  /** A fresh buffer has room for anything that is not larger than it. */
  lemma AllocateFromFresh(p: Pool, id: nat, size: nat)
    requires IsSliced(p, id) && p.buffers[id].regions == Initial(p.buffers[id].size) && size <= p.buffers[id].size
    ensures AllocateFrom(p, id, size).1.Some?
  {
  }

  lemma SetRegionsCore(p: Pool, id: nat, r: Regions)
    requires Core(p) && id in p.buffers && p.buffers[id].Sliced? && Inv(r, p.buffers[id].size)
    ensures Core(SetRegions(p, id, r))
  {
    var q := SetRegions(p, id, r);
    forall i | i in q.buffers
      ensures BufferOk(q, i)
    {
      assert BufferOk(p, i);
    }
  }

  lemma SlicedAdded(p: Pool, q: Pool, id: nat, offset: nat, size: nat, live: map<nat, nat>)
    requires Core(p) && Core(q) && LiveInv(p, live) && size > 0
    requires id in p.buffers && p.buffers[id].Sliced?
    requires q.buffers.Keys == p.buffers.Keys && q.buffers[id].Sliced? && q == SetRegions(p, id, q.buffers[id].regions)
    requires HasRoomAt(Live(p.buffers[id].regions.spans), Interval(offset, size), p.buffers[id].size)
    requires Live(q.buffers[id].regions.spans) == Live(p.buffers[id].regions.spans) + {Interval(offset, size)}
    ensures offset < q.mapped[id].size
    ensures var ptr := q.mapped[id].base + offset; ptr !in live && LiveInv(q, live[ptr := size])
  {
    assert BufferOk(p, id);
    var ptr := q.mapped[id].base + offset;
    forall i, a, n | Holds(q, i, a, n)
      ensures (i == id && a == ptr) || (Holds(p, i, a, n) && (q.buffers[i].Sliced? ==> p.buffers[i].Sliced?))
    {
      if i != id {
        HoldsElsewhere(p, q, i, a, n);
      }
    }
    forall i, a, n | Holds(p, i, a, n)
      ensures Holds(q, i, a, n) && !(i == id && a == ptr)
    {
      if i != id {
        HoldsElsewhere(p, q, i, a, n);
      }
    }
    assert Holds(q, id, ptr, size);
    LiveAdded(p, q, live, id, ptr, size);
  }

  /** A buffer with nothing live in it can go. */
  lemma MaybeDeleteKeeps(p: Pool, id: nat, live: map<nat, nat>, peer: map<nat, nat>)
    requires Core(p) && LiveInv(p, live) && Replays(peer, p.updates, Sizes(p))
    requires id in p.buffers && p.buffers[id].Sliced?
    requires p.active != Some(id)
    requires p.active.Some? ==> p.active.value in p.buffers && p.buffers[p.active.value].Sliced?
    requires forall i {:trigger HasLive(p, i)} ::
               i in p.buffers && p.buffers[i].Sliced? && p.active != Some(i) && i != id ==> HasLive(p, i)
    ensures PoolInv(MaybeDelete(p, id), live, peer)
  {
    var q := MaybeDelete(p, id);
    assert BufferOk(p, id);
    AnyAllocatedIffLive(p.buffers[id].regions, p.buffers[id].size);
    if q == p {
      assert HasLive(p, id);
    } else {
      DeletedLive(p, id, live);
      DeleteReplays(p, id, peer);
      forall i | i in q.buffers && q.buffers[i].Sliced? && q.active != Some(i)
        ensures HasLive(q, i)
      {
        assert HasLive(p, i);
      }
    }
  }

  /** A buffer that is the same in two pools holds the same in both. */
  lemma HoldsElsewhere(p: Pool, q: Pool, i: nat, a: nat, n: nat)
    requires p.free == q.free
    requires i in p.buffers && i in p.mapped && i in q.buffers && i in q.mapped
    requires p.buffers[i] == q.buffers[i] && p.mapped[i] == q.mapped[i]
    ensures Holds(p, i, a, n) <==> Holds(q, i, a, n)
  {
    assert IsFree(q, i) <==> IsFree(p, i);
  }

  lemma DeletedLive(p: Pool, id: nat, live: map<nat, nat>)
    requires Core(p) && LiveInv(p, live) && id in p.buffers && p.buffers[id].Sliced?
    requires Live(p.buffers[id].regions.spans) == {}
    ensures Core(DeleteBuffer(p, id)) && LiveInv(DeleteBuffer(p, id), live)
  {
    var q := DeleteBuffer(p, id);
    DeleteCore(p, id);
    forall i, a, n
      ensures Holds(p, i, a, n) <==> Holds(q, i, a, n)
    {
      if i in q.buffers {
        HoldsElsewhere(p, q, i, a, n);
      }
    }
    SameLive(p, q, live);
  }

  lemma ReplaceActiveKeeps(p: Pool, size: nat, m: Mapping, live: map<nat, nat>, peer: map<nat, nat>)
    requires PoolInv(p, live, peer) && size > 0
    requires p.active.Some? ==> IsSliced(p, p.active.value)
    requires Grantable(p, m, SlicedSize(p, size))
    ensures PoolInv(ReplaceActive(p, size, m), live, peer)
    ensures var q, n := ReplaceActive(p, size, m), SlicedSize(p, size);
            NewId(p) in q.buffers && q.buffers[NewId(p)] == Sliced(n, Initial(n)) && n >= size
  {
    var n := SlicedSize(p, size);
    InitialKeeps(n);
    var created := CreateBuffer(p, Sliced(n, Initial(n)), m);
    CreateCore(p, Sliced(n, Initial(n)), m);
    CreateReplays(p, Sliced(n, Initial(n)), m, peer);
    CreatedLive(p, n, m, live);
    // Seen with the new buffer already active, the old one is one like any other.
    var renamed := created.(active := Some(NewId(p)));
    SameBuffers(created, renamed, live);
    forall i | i in renamed.buffers && renamed.buffers[i].Sliced? && renamed.active != Some(i) && p.active != Some(i)
      ensures HasLive(renamed, i)
    {
      assert HasLive(p, i);
    }
    if p.active.Some? {
      MaybeDeleteKeeps(renamed, p.active.value, live, peer);
      assert MaybeDelete(renamed, p.active.value) == ReplaceActive(p, size, m);
    }
  }

  lemma CreatedLive(p: Pool, n: nat, m: Mapping, live: map<nat, nat>)
    requires LiveInv(p, live) && NewId(p) !in p.mapped && p.buffers.Keys == p.mapped.Keys
    ensures LiveInv(CreateBuffer(p, Sliced(n, Initial(n)), m), live)
  {
    var q := CreateBuffer(p, Sliced(n, Initial(n)), m);
    assert Live(Initial(n).spans) == {};
    forall i, a, k
      ensures Holds(p, i, a, k) <==> Holds(q, i, a, k)
    {
      assert IsFree(q, i) <==> IsFree(p, i);
    }
    SameLive(p, q, live);
  }

  /** Which buffer is active makes no difference to the rest. */
  lemma SameBuffers(p: Pool, q: Pool, live: map<nat, nat>)
    requires Core(p) && LiveInv(p, live) && q == p.(active := q.active)
    ensures Core(q) && LiveInv(q, live) && Sizes(q) == Sizes(p)
  {
    forall i | i in q.buffers
      ensures BufferOk(q, i)
    {
      assert BufferOk(p, i);
    }
    forall i, a, k
      ensures Holds(p, i, a, k) <==> Holds(q, i, a, k)
    {
      assert IsFree(q, i) <==> IsFree(p, i);
    }
    SameLive(p, q, live);
  }

  /** A sliced allocation never fails once the system has granted a buffer. */
  lemma AllocateSlicedKeeps(p: Pool, size: nat, granted: Option<Mapping>, live: map<nat, nat>, peer: map<nat, nat>)
    requires PoolInv(p, live, peer) && size > 0
    requires p.active.Some? ==> IsSliced(p, p.active.value)
    requires granted.Some? ==> Grantable(p, granted.value, SlicedSize(p, size))
    ensures var (q, locator) := AllocateSliced(p, size, granted);
            Allocated(q, locator, size, live, peer) && (locator.None? ==> granted.None?)
  {
    if p.active.Some? {
      AllocateFromKeeps(p, p.active.value, size, live, peer);
    }
    if granted.Some? && !(p.active.Some? && AllocateFrom(p, p.active.value, size).1.Some?) {
      ReplaceActiveKeeps(p, size, granted.value, live, peer);
      AllocateFromKeeps(ReplaceActive(p, size, granted.value), NewId(p), size, live, peer);
      AllocateFromFresh(ReplaceActive(p, size, granted.value), NewId(p), size);
    }
  }

  // ----- release

  /** The free buffer goes behind those that are not larger and before those that are. */
  lemma {:induction false} InsertPosition(free: seq<FreeBuffer>, f: FreeBuffer) returns (k: nat)
    ensures k <= |free| && InsertFree(free, f) == free[..k] + [f] + free[k..]
    ensures forall j :: 0 <= j < k ==> free[j].size <= f.size
    ensures k < |free| ==> free[k].size > f.size
  {
    if free == [] || f.size < free[0].size {
      k := 0;
    } else {
      k := InsertPosition(free[1..], f);
      assert free == [free[0]] + free[1..];
      k := k + 1;
    }
  }

  lemma InsertedIsFree(p: Pool, id: nat)
    requires id in p.buffers
    ensures forall i :: IsFree(ReleaseWhole(p, id), i) <==> IsFree(p, i) || i == id
  {
    var f, q := FreeBuffer(p.buffers[id].size, id), ReleaseWhole(p, id);
    var k := InsertPosition(p.free, f);
    assert q.free[k] == f;
    forall i | IsFree(p, i)
      ensures IsFree(q, i)
    {
      var j :| 0 <= j < |p.free| && p.free[j].id == i;
      assert q.free[if j < k then j else j + 1].id == i;
    }
    forall i | IsFree(q, i)
      ensures IsFree(p, i) || i == id
    {
      var j :| 0 <= j < |q.free| && q.free[j].id == i;
      assert j != k ==> p.free[if j < k then j else j - 1].id == i;
    }
  }

  lemma ReleaseWholeFree(p: Pool, id: nat)
    requires FreeInv(p) && id in p.buffers && p.buffers[id].Whole? && !IsFree(p, id)
    ensures FreeInv(ReleaseWhole(p, id))
  {
    var f, q := FreeBuffer(p.buffers[id].size, id), ReleaseWhole(p, id);
    var n := InsertPosition(p.free, f);
    forall k | 0 <= k < |q.free|
      ensures q.free[k] == if k < n then p.free[k] else if k == n then f else p.free[k - 1]
    {
    }
    forall j, k | 0 <= j < k < |q.free|
      ensures q.free[j].size <= q.free[k].size && q.free[j].id != q.free[k].id
    {
      if j == n {
        assert p.free[n].size <= p.free[k - 1].size;
      }
    }
  }

  lemma ReleaseWholeKeeps(p: Pool, id: nat, live: map<nat, nat>, peer: map<nat, nat>)
    requires PoolInv(p, live, peer) && id in p.buffers && p.buffers[id].Whole?
    requires p.mapped[id].base in live && Holds(p, id, p.mapped[id].base, live[p.mapped[id].base])
    ensures PoolInv(ReleaseWhole(p, id), live - {p.mapped[id].base}, peer)
  {
    ReleaseWholeFree(p, id);
    ReleaseWholeBuffers(p, id);
    ReleaseWholeLive(p, id, live);
    assert Sizes(ReleaseWhole(p, id)) == Sizes(p);
  }

  lemma ReleaseWholeBuffers(p: Pool, id: nat)
    requires MappingsInv(p) && BuffersInv(p) && ActiveInv(p) && id in p.buffers
    ensures MappingsInv(ReleaseWhole(p, id)) && BuffersInv(ReleaseWhole(p, id)) && ActiveInv(ReleaseWhole(p, id))
  {
    var q := ReleaseWhole(p, id);
    forall i | i in q.buffers
      ensures BufferOk(q, i)
    {
      assert BufferOk(p, i);
    }
    forall i | i in q.buffers && q.buffers[i].Sliced? && q.active != Some(i)
      ensures HasLive(q, i)
    {
      assert HasLive(p, i);
    }
  }

  lemma ReleaseWholeLive(p: Pool, id: nat, live: map<nat, nat>)
    requires MappingsInv(p) && BuffersInv(p) && LiveInv(p, live) && id in p.buffers && p.buffers[id].Whole?
    requires p.mapped[id].base in live && Holds(p, id, p.mapped[id].base, live[p.mapped[id].base])
    ensures LiveInv(ReleaseWhole(p, id), live - {p.mapped[id].base})
  {
    var ptr, q := p.mapped[id].base, ReleaseWhole(p, id);
    InsertedIsFree(p, id);
    forall i, a, n | Holds(q, i, a, n)
      ensures Holds(p, i, a, n) && a != ptr
    {
      assert Holds(p, i, a, n);
      if a == ptr {
        HoldsUnique(p, i, n, id, live[ptr], ptr);
      }
    }
    LiveRemoved(p, q, live, ptr);
  }

  /** The region of a live address in a sliced buffer can be found and freed. */
  lemma FreedRegions(p: Pool, l: Locator, size: nat)
    requires BuffersInv(p) && l.id in p.buffers && p.buffers[l.id].Sliced?
    requires Holds(p, l.id, p.mapped[l.id].base + l.offset, size)
    ensures CanRelease(p, l)
    ensures var b, freed := p.buffers[l.id], WithFreed(p, l).buffers[l.id];
            Inv(freed.regions, b.size) &&
            Live(freed.regions.spans) == Live(b.regions.spans) - {Interval(l.offset, size)}
  {
    assert BufferOk(p, l.id);
    ReleaseRefines(p.buffers[l.id].regions, Interval(l.offset, size), p.buffers[l.id].size);
  }

  /** Freeing the region of a live address keeps all but what is left of its buffer. */
  lemma FreedSlice(p: Pool, l: Locator, live: map<nat, nat>)
    requires Core(p) && LiveInv(p, live) && l.id in p.buffers && p.buffers[l.id].Sliced?
    requires var ptr := p.mapped[l.id].base + l.offset; ptr in live && Holds(p, l.id, ptr, live[ptr])
    ensures CanRelease(p, l)
    ensures var q := WithFreed(p, l);
            Core(q) && LiveInv(q, live - {p.mapped[l.id].base + l.offset}) && Sizes(q) == Sizes(p)
  {
    FreedCore(p, l, live[p.mapped[l.id].base + l.offset]);
    SlicedRemoved(p, WithFreed(p, l), l.id, l.offset, live);
  }

  lemma FreedCore(p: Pool, l: Locator, size: nat)
    requires Core(p) && l.id in p.buffers && p.buffers[l.id].Sliced?
    requires Holds(p, l.id, p.mapped[l.id].base + l.offset, size)
    ensures CanRelease(p, l) && Core(WithFreed(p, l))
    ensures var spans := WithFreed(p, l).buffers[l.id].regions.spans;
            Live(spans) == Live(p.buffers[l.id].regions.spans) - {Interval(l.offset, size)}
  {
    FreedRegions(p, l, size);
    SetRegionsCore(p, l.id, WithFreed(p, l).buffers[l.id].regions);
  }

  /** The pool with the region at a locator freed and its buffer still there. */
  function WithFreed(p: Pool, l: Locator): Pool
    requires CanRelease(p, l) && p.buffers[l.id].Sliced?
  {
    SetRegions(p, l.id, ReleaseAt(p.buffers[l.id].regions, Find(p.buffers[l.id].regions, l.offset).value))
  }

  lemma ReleaseSlicedKeeps(p: Pool, l: Locator, live: map<nat, nat>, peer: map<nat, nat>)
    requires Core(p) && ActiveInv(p) && LiveInv(p, live) && Replays(peer, p.updates, Sizes(p))
    requires l.id in p.buffers && p.buffers[l.id].Sliced?
    requires var ptr := p.mapped[l.id].base + l.offset; ptr in live && Holds(p, l.id, ptr, live[ptr])
    ensures CanRelease(p, l)
    ensures PoolInv(ReleaseSliced(p, l), live - {p.mapped[l.id].base + l.offset}, peer)
  {
    FreedSlice(p, l, live);
    var q := WithFreed(p, l);
    forall i | i in q.buffers && q.buffers[i].Sliced? && q.active != Some(i) && i != l.id
      ensures HasLive(q, i)
    {
      assert HasLive(p, i);
    }
    if p.active != Some(l.id) {
      MaybeDeleteKeeps(q, l.id, live - {p.mapped[l.id].base + l.offset}, peer);
    }
  }

  /** Releasing the locator of a live address gives up exactly that address. */
  lemma ReleaseLocatorKeeps(p: Pool, l: Locator, live: map<nat, nat>, peer: map<nat, nat>)
    requires PoolInv(p, live, peer) && l.id in p.mapped && l.offset < p.mapped[l.id].size
    requires p.mapped[l.id].base + l.offset in live
    ensures CanRelease(p, l)
    ensures PoolInv(Release(p, l), live - {p.mapped[l.id].base + l.offset}, peer)
  {
    HolderOfAddress(p, l.id, p.mapped[l.id].base + l.offset, live);
    if p.buffers[l.id].Whole? {
      ReleaseWholeKeeps(p, l.id, live, peer);
    } else {
      ReleaseSlicedKeeps(p, l, live, peer);
    }
  }

  lemma SlicedRemoved(p: Pool, q: Pool, id: nat, offset: nat, live: map<nat, nat>)
    requires Core(p) && Core(q) && LiveInv(p, live) && id in p.buffers && p.buffers[id].Sliced?
    requires q.buffers.Keys == p.buffers.Keys && q.buffers[id].Sliced? && q == SetRegions(p, id, q.buffers[id].regions)
    requires var ptr := p.mapped[id].base + offset;
             && ptr in live && Holds(p, id, ptr, live[ptr])
             && Live(q.buffers[id].regions.spans) == Live(p.buffers[id].regions.spans) - {Interval(offset, live[ptr])}
    ensures LiveInv(q, live - {p.mapped[id].base + offset})
  {
    var ptr := p.mapped[id].base + offset;
    forall i, a, n | Holds(q, i, a, n)
      ensures Holds(p, i, a, n) && a != ptr
    {
      StillHeld(p, q, id, offset, live[ptr], i, a, n);
    }
    forall i, a, n | Holds(p, i, a, n) && a != ptr
      ensures Holds(q, i, a, n)
    {
      if i != id {
        HoldsElsewhere(p, q, i, a, n);
      }
    }
    LiveRemoved(p, q, live, ptr);
  }

  /** What is held after a region is freed was held before, and elsewhere. */
  lemma StillHeld(p: Pool, q: Pool, id: nat, offset: nat, size: nat, i: nat, a: nat, n: nat)
    requires Core(p) && id in p.buffers && p.buffers[id].Sliced?
    requires q.buffers.Keys == p.buffers.Keys && q.buffers[id].Sliced? && q == SetRegions(p, id, q.buffers[id].regions)
    requires Holds(p, id, p.mapped[id].base + offset, size) && Holds(q, i, a, n)
    requires Live(q.buffers[id].regions.spans) == Live(p.buffers[id].regions.spans) - {Interval(offset, size)}
    ensures Holds(p, i, a, n) && a != p.mapped[id].base + offset
  {
    if i != id {
      HoldsElsewhere(p, q, i, a, n);
    }
    if a == p.mapped[id].base + offset {
      HoldsUnique(p, i, n, id, size, a);
    }
  }

  // ----- addresses

  /** The buffer whose mapping contains a live address holds it. */
  lemma HolderOfAddress(p: Pool, id: nat, ptr: nat, live: map<nat, nat>)
    requires Core(p) && LiveInv(p, live) && ptr in live && id in p.mapped
    requires p.mapped[id].base <= ptr < p.mapped[id].base + p.mapped[id].size
    ensures Holds(p, id, ptr, live[ptr])
    ensures id in p.buffers && (p.buffers[id].Whole? ==> ptr == p.mapped[id].base)
  {
    var i :| Holds(p, i, ptr, live[ptr]);
    HoldsWithin(p, i, ptr, live[ptr]);
  }

  /** Every whole buffer is live, at its first byte, or free, and free once. */
  lemma WholeLiveOrFree(p: Pool, live: map<nat, nat>, peer: map<nat, nat>, id: nat)
    requires PoolInv(p, live, peer) && id in p.buffers && p.buffers[id].Whole?
    ensures p.mapped[id].base in live <==> !IsFree(p, id)
    ensures forall j, k :: 0 <= j < |p.free| && 0 <= k < |p.free| && p.free[j].id == id && p.free[k].id == id ==> j == k
  {
    var base := p.mapped[id].base;
    assert BufferOk(p, id);
    if base in live {
      HolderOfAddress(p, id, base, live);
    } else if !IsFree(p, id) {
      assert Holds(p, id, base, 1);
    }
  }

  /** A peer that has applied every update accepts every live region. */
  lemma PeerAcceptsLive(p: Pool, live: map<nat, nat>, peer: map<nat, nat>, id: nat, ptr: nat)
    requires PoolInv(p, live, peer) && p.updates == []
    requires ptr in live && id in p.mapped && p.mapped[id].base <= ptr < p.mapped[id].base + p.mapped[id].size
    ensures Validate(peer, Payload(id, ptr - p.mapped[id].base, live[ptr]))
  {
    HolderOfAddress(p, id, ptr, live);
    HoldsWithin(p, id, ptr, live[ptr]);
  }

}
