// The state of SharedBufferSetAllocator as a value: which buffers are mapped
// where, how each is used, and what is live.

module BufferPool {
  import opened Options
  import opened FifoRegions
  import opened TransportSteps

  /** Where a buffer is mapped: the address of its first byte, never null, and its size. */
  datatype Mapping = Mapping(base: nat, size: nat)

  /** A buffer's nominal size, and its regions unless it is used as a whole. */
  datatype Buffer = Whole(size: nat) | Sliced(size: nat, regions: Regions)

  datatype Locator = Locator(id: nat, offset: nat)

  datatype FreeBuffer = FreeBuffer(size: nat, id: nat)

  /** free lists the whole buffers that are not in use, smallest first. */
  datatype Pool = Pool(
    mapped: map<nat, Mapping>,
    buffers: map<nat, Buffer>,
    free: seq<FreeBuffer>,
    active: Option<nat>,
    updates: seq<BufferUpdate>)

  const EMPTY: Pool := Pool(map[], map[], [], None, [])

  const WHOLE_REGION_MINIMUM_SIZE: nat := 64 * 1024
  const SLICED_BUFFER_INITIAL_SIZE_MULTIPLIER: nat := 3
  const SLICED_BUFFER_GROW_MULTIPLIER: nat := 2

  // ----- the operations

  /** The smallest id that is not in use. */
  function FirstFree(used: set<nat>, from: nat): (id: nat)
    ensures id !in used && id >= from
    ensures forall i :: from <= i < id ==> i in used
    decreases |set i | i in used && i >= from|
  {
    if from !in used then from
    else
      assert (set i | i in used && i >= from) == (set i | i in used && i >= from + 1) + {from};
      FirstFree(used, from + 1)
  }

  function NewId(p: Pool): nat {
    FirstFree(p.mapped.Keys, 0)
  }

  function CreateBuffer(p: Pool, buffer: Buffer, m: Mapping): Pool {
    var id := NewId(p);
    p.(mapped := p.mapped[id := m], buffers := p.buffers[id := buffer], updates := p.updates + [Add(id, m.size)])
  }

  function DeleteBuffer(p: Pool, id: nat): Pool {
    p.(mapped := p.mapped - {id}, buffers := p.buffers - {id}, updates := p.updates + [Remove(id)])
  }

  /** Deletes the free whole buffers that are too small. */
  function Evict(p: Pool, size: nat): Pool
    decreases |p.free|
  {
    if p.free != [] && p.free[0].size < size
    then Evict(DeleteBuffer(p, p.free[0].id).(free := p.free[1..]), size)
    else p
  }

  /** The new pool and where the region is, given the mapping that the system grants if it is asked for one. */
  function AllocateWhole(p0: Pool, size: nat, granted: Option<Mapping>): (Pool, Option<Locator>) {
    var p := Evict(p0, size);
    if p.free != [] then (p.(free := p.free[1..]), Some(Locator(p.free[0].id, 0)))
    else if granted.None? then (p, None)
    else (CreateBuffer(p, Whole(size), granted.value), Some(Locator(NewId(p), 0)))
  }

  function SetRegions(p: Pool, id: nat, regions: Regions): Pool
    requires id in p.buffers && p.buffers[id].Sliced?
  {
    p.(buffers := p.buffers[id := p.buffers[id].(regions := regions)])
  }

  function MaybeDelete(p: Pool, id: nat): Pool
    requires id in p.buffers && p.buffers[id].Sliced?
  {
    if AnyAllocated(p.buffers[id].regions) then p else DeleteBuffer(p, id)
  }

  predicate IsSliced(p: Pool, id: nat) {
    id in p.buffers && p.buffers[id].Sliced? && p.buffers[id].regions.active < |p.buffers[id].regions.spans|
  }

  /** Tries to allocate from a sliced buffer. */
  function AllocateFrom(p: Pool, id: nat, size: nat): (Pool, Option<Locator>)
    requires IsSliced(p, id)
  {
    match Allocate(p.buffers[id].regions, size)
    case (r, Some(offset)) => (SetRegions(p, id, r), Some(Locator(id, offset)))
    case (_, None) => (p, None)
  }

  /** The size of the sliced buffer that is created if one is needed. */
  function SlicedSize(p: Pool, size: nat): nat
    requires p.active.Some? ==> p.active.value in p.buffers
  {
    var initial := size * SLICED_BUFFER_INITIAL_SIZE_MULTIPLIER;
    if p.active.None? then initial
    else
      var grown := p.buffers[p.active.value].size * SLICED_BUFFER_GROW_MULTIPLIER;
      if initial > grown then initial else grown
  }

  /** Creates a sliced buffer and makes it active; the old active one goes if nothing in it is live. */
  function ReplaceActive(p: Pool, size: nat, m: Mapping): Pool
    requires p.active.Some? ==> IsSliced(p, p.active.value)
  {
    var n := SlicedSize(p, size);
    var created := CreateBuffer(p, Sliced(n, Initial(n)), m);
    (if p.active.Some? then MaybeDelete(created, p.active.value) else created).(active := Some(NewId(p)))
  }

  function AllocateSliced(p: Pool, size: nat, granted: Option<Mapping>): (Pool, Option<Locator>)
    requires p.buffers.Keys == p.mapped.Keys
    requires p.active.Some? ==> IsSliced(p, p.active.value)
  {
    if p.active.Some? && AllocateFrom(p, p.active.value, size).1.Some? then AllocateFrom(p, p.active.value, size)
    else if granted.None? then (p, None)
    else AllocateFrom(ReplaceActive(p, size, granted.value), NewId(p), size)
  }

  /** Allocates by the strategy that the size calls for. */
  function AllocateRegion(p: Pool, size: nat, granted: Option<Mapping>): (Pool, Option<Locator>)
    requires p.buffers.Keys == p.mapped.Keys
    requires p.active.Some? ==> IsSliced(p, p.active.value)
  {
    if size >= WHOLE_REGION_MINIMUM_SIZE then AllocateWhole(p, size, granted) else AllocateSliced(p, size, granted)
  }

  /** Inserts behind every buffer that is not larger. */
  function InsertFree(free: seq<FreeBuffer>, f: FreeBuffer): seq<FreeBuffer> {
    if free == [] || f.size < free[0].size then [f] + free else [free[0]] + InsertFree(free[1..], f)
  }

  function ReleaseWhole(p: Pool, id: nat): Pool
    requires id in p.buffers
  {
    p.(free := InsertFree(p.free, FreeBuffer(p.buffers[id].size, id)))
  }

  predicate CanRelease(p: Pool, l: Locator) {
    l.id in p.buffers && (p.buffers[l.id].Sliced? ==>
      && IsSliced(p, l.id) && Find(p.buffers[l.id].regions, l.offset).Some?
      && Find(p.buffers[l.id].regions, l.offset).value < |p.buffers[l.id].regions.spans|)
  }

  function ReleaseSliced(p: Pool, l: Locator): Pool
    requires CanRelease(p, l) && p.buffers[l.id].Sliced?
  {
    var r := p.buffers[l.id].regions;
    var released := SetRegions(p, l.id, ReleaseAt(r, Find(r, l.offset).value));
    if p.active == Some(l.id) then released else MaybeDelete(released, l.id)
  }

  function Release(p: Pool, l: Locator): Pool
    requires CanRelease(p, l)
  {
    if p.buffers[l.id].Whole? then ReleaseWhole(p, l.id) else ReleaseSliced(p, l)
  }

  // ----- the invariant

  /** Two mappings occupy different addresses. */
  predicate Separate(a: Mapping, b: Mapping) {
    a.base + a.size <= b.base || b.base + b.size <= a.base
  }

  ghost predicate MappingsInv(p: Pool) {
    && (forall i :: i in p.mapped ==> p.mapped[i].base > 0 && p.mapped[i].size > 0)
    && (forall i, j :: i in p.mapped && j in p.mapped && i != j ==> Separate(p.mapped[i], p.mapped[j]))
  }

  /** A buffer is no larger than its mapping and its regions are in order. */
  ghost predicate BufferOk(p: Pool, id: nat)
    requires id in p.buffers && id in p.mapped
  {
    && 0 < p.buffers[id].size <= p.mapped[id].size
    && (p.buffers[id].Sliced? ==> Inv(p.buffers[id].regions, p.buffers[id].size))
  }

  ghost predicate BuffersInv(p: Pool) {
    && p.buffers.Keys == p.mapped.Keys
    && forall i {:trigger BufferOk(p, i)} :: i in p.buffers ==> BufferOk(p, i)
  }

  /** The free list is sorted, without repetition, and lists whole buffers with their sizes. */
  ghost predicate FreeInv(p: Pool) {
    && (forall k :: 0 <= k < |p.free| ==>
          p.free[k].id in p.buffers && p.buffers[p.free[k].id] == Whole(p.free[k].size))
    && (forall j, k :: 0 <= j < k < |p.free| ==> p.free[j].size <= p.free[k].size && p.free[j].id != p.free[k].id)
  }

  ghost predicate HasLive(p: Pool, id: nat)
    requires id in p.buffers && p.buffers[id].Sliced?
  {
    Live(p.buffers[id].regions.spans) != {}
  }

  /** The active buffer is sliced; any other sliced buffer still has a live region. */
  ghost predicate ActiveInv(p: Pool) {
    && (p.active.Some? ==> p.active.value in p.buffers && p.buffers[p.active.value].Sliced?)
    && forall i {:trigger HasLive(p, i)} ::
          i in p.buffers && p.buffers[i].Sliced? && p.active != Some(i) ==> HasLive(p, i)
  }

  predicate IsFree(p: Pool, id: nat) {
    exists k :: 0 <= k < |p.free| && p.free[k].id == id
  }

  /** Buffer id holds the live region of that size at the address. */
  ghost predicate Holds(p: Pool, id: nat, ptr: nat, size: nat) {
    && id in p.buffers && id in p.mapped && size > 0
    && match p.buffers[id]
       case Whole(n) => ptr == p.mapped[id].base && size <= n && !IsFree(p, id)
       case Sliced(_, r) => ptr >= p.mapped[id].base && Interval(ptr - p.mapped[id].base, size) in Live(r.spans)
  }

  /** Every address handed out is held by a buffer, and buffers hold nothing else. */
  ghost predicate LiveInv(p: Pool, live: map<nat, nat>) {
    && (forall ptr :: ptr in live ==> exists id :: Holds(p, id, ptr, live[ptr]))
    && (forall id, ptr, size {:trigger Holds(p, id, ptr, size)} :: Holds(p, id, ptr, size) ==>
          ptr in live && (p.buffers[id].Sliced? ==> live[ptr] == size))
  }

  /** Replaying the updates turns one buffer set into the other, each one applicable in turn. */
  ghost predicate Replays(buffers: map<nat, nat>, updates: seq<BufferUpdate>, result: map<nat, nat>)
    decreases |updates|
  {
    if updates == [] then buffers == result
    else Applicable(buffers, updates[0]) && Replays(Apply(buffers, updates[0]), updates[1..], result)
  }

  function Sizes(p: Pool): map<nat, nat> {
    map id | id in p.mapped :: p.mapped[id].size
  }

  ghost predicate PoolInv(p: Pool, live: map<nat, nat>, peer: map<nat, nat>) {
    && MappingsInv(p) && BuffersInv(p) && FreeInv(p) && ActiveInv(p)
    && LiveInv(p, live)
    && Replays(peer, p.updates, Sizes(p))
  }

  /** A mapping that the system may grant: not null, large enough, and clear of the others. */
  ghost predicate Grantable(p: Pool, m: Mapping, size: nat) {
    && m.base > 0 && m.size >= size
    && forall i :: i in p.mapped ==> Separate(p.mapped[i], m)
  }

  // ----- what live regions are worth

  lemma HoldsWithin(p: Pool, id: nat, ptr: nat, size: nat)
    requires BuffersInv(p) && Holds(p, id, ptr, size)
    ensures p.mapped[id].base <= ptr && ptr + size <= p.mapped[id].base + p.mapped[id].size
  {
    assert BufferOk(p, id);
    if p.buffers[id].Sliced? {
      var a := Interval(ptr - p.mapped[id].base, size);
      LiveDisjoint(p.buffers[id].regions, p.buffers[id].size, a, a);
    }
  }

  /** No two live regions overlap. */
  lemma HoldsDisjoint(p: Pool, i: nat, ptr: nat, size: nat, j: nat, ptr': nat, size': nat)
    requires MappingsInv(p) && BuffersInv(p)
    requires Holds(p, i, ptr, size) && Holds(p, j, ptr', size') && ptr != ptr'
    ensures ptr + size <= ptr' || ptr' + size' <= ptr
  {
    HoldsWithin(p, i, ptr, size);
    HoldsWithin(p, j, ptr', size');
    if i == j {
      assert BufferOk(p, i);
      if p.buffers[i].Sliced? {
        var base := p.mapped[i].base;
        LiveDisjoint(p.buffers[i].regions, p.buffers[i].size, Interval(ptr - base, size), Interval(ptr' - base, size'));
      }
    }
  }

  /** An address is held by one buffer only. */
  lemma HoldsUnique(p: Pool, i: nat, size: nat, j: nat, size': nat, ptr: nat)
    requires MappingsInv(p) && BuffersInv(p)
    requires Holds(p, i, ptr, size) && Holds(p, j, ptr, size')
    ensures i == j && (p.buffers[i].Sliced? ==> size == size')
  {
    HoldsWithin(p, i, ptr, size);
    HoldsWithin(p, j, ptr, size');
    assert BufferOk(p, i);
    if i == j && p.buffers[i].Sliced? {
      var base := p.mapped[i].base;
      LiveDisjoint(p.buffers[i].regions, p.buffers[i].size, Interval(ptr - base, size), Interval(ptr - base, size'));
    }
  }

  /** Live regions never overlap, and each lies within one mapped buffer. */
  lemma LiveRegionsDisjoint(p: Pool, live: map<nat, nat>, peer: map<nat, nat>)
    requires PoolInv(p, live, peer)
    ensures forall a, b :: a in live && b in live && a != b ==> a + live[a] <= b || b + live[b] <= a
    ensures forall a :: a in live ==>
              exists i :: i in p.mapped && p.mapped[i].base <= a && a + live[a] <= p.mapped[i].base + p.mapped[i].size
  {
    forall a, b | a in live && b in live && a != b
      ensures a + live[a] <= b || b + live[b] <= a
    {
      var i :| Holds(p, i, a, live[a]);
      var j :| Holds(p, j, b, live[b]);
      HoldsDisjoint(p, i, a, live[a], j, b, live[b]);
    }
    forall a | a in live
      ensures exists i :: i in p.mapped && p.mapped[i].base <= a && a + live[a] <= p.mapped[i].base + p.mapped[i].size
    {
      var i :| Holds(p, i, a, live[a]);
      HoldsWithin(p, i, a, live[a]);
    }
  }

}
