// ReaderCache: one reader and one intake process sharing a sparse buffer. Each
// method of Store runs under its mutex, so a run is any interleaving of them.

module ReaderCaches {
  import opened Bytes
  import opened Options
  import opened SparseBytes

  datatype Result = Ok | UnknownError | InternalError | UnsupportedOperation | InvalidArgument | NotFound

  datatype Extent = Extent(position: nat, size: nat)

  const DEFAULT_READ_SIZE: nat := 32 * 1024

  function Min(a: nat, b: nat): nat {
    if a < b then a else b
  }

  // ----- the store as values

  /** Every region is a slice of the asset. */
  ghost predicate Cached(regions: map<nat, seq<byte>>, asset: seq<byte>) {
    forall k :: k in regions ==> k + |regions[k]| <= |asset| && regions[k] == asset[k..k + |regions[k]|]
  }

  predicate Within(e: Extent, p: nat) {
    e.position <= p < e.position + e.size
  }

  predicate StrictlyWithin(e: Extent, p: nat) {
    e.position < p < e.position + e.size
  }

  ghost predicate Missing(holes: map<nat, nat>, e: Extent) {
    forall q: nat :: Within(e, q) ==> Covers(holes, q)
  }

  /** What intake has been asked for begins at the intake hole and is still missing. */
  ghost predicate InFlightOk(holes: map<nat, nat>, intakeHole: Option<nat>, inFlight: Option<Extent>) {
    inFlight.Some? ==>
      inFlight.value.size > 0 && intakeHole == Some(inFlight.value.position) && Missing(holes, inFlight.value)
  }

  /** The bytes in flight fit into the hole that intake is filling, as two debug checks suppose. */
  ghost predicate FitsHole(holes: map<nat, nat>, inFlight: Option<Extent>) {
    inFlight.Some? ==> inFlight.value.position in holes && inFlight.value.size <= holes[inFlight.value.position]
  }

  /** Missing bytes fit into the hole they begin with exactly if no other hole begins among them. */
  lemma FitsHoleUnlessSplit(holes: map<nat, nat>, e: Extent)
    requires Disjoint(holes) && e.size > 0 && e.position in holes && Missing(holes, e)
    ensures e.size <= holes[e.position] <==> forall k :: k in holes && k > e.position ==> k >= e.position + e.size
  {
    var next := e.position + holes[e.position];
    if next < e.position + e.size {
      assert Within(e, next);
      NextAdjacent(holes, e.position);
    }
  }

  /** Of the holes that a new call may make, one strictly within what is in flight breaks the checks. */
  lemma FitsHoleStill(holes: map<nat, nat>, holes': map<nat, nat>, inFlight: Option<Extent>, blocked: Option<nat>)
    requires Disjoint(holes) && Disjoint(holes') && FitsHole(holes, inFlight)
    requires inFlight.Some? ==>
               inFlight.value.size > 0 && Missing(holes, inFlight.value) && Missing(holes', inFlight.value)
    requires holes'.Keys == holes.Keys + if blocked.Some? then {blocked.value} else {}
    ensures FitsHole(holes', inFlight) <==>
              !(inFlight.Some? && blocked.Some? && StrictlyWithin(inFlight.value, blocked.value))
  {
    if inFlight.Some? {
      FitsHoleUnlessSplit(holes, inFlight.value);
      FitsHoleUnlessSplit(holes', inFlight.value);
    }
  }

  /** Whether the next bytes that intake puts begin the asset, or something is cached and the beginning is. */
  predicate BeginsAtZero(regions: set<nat>, intakeHole: Option<nat>, readHole: Option<nat>, inFlight: Option<Extent>) {
    if regions == {} then intakeHole == Some(0) && (inFlight.None? && readHole.Some? ==> readHole == Some(0))
    else 0 in regions
  }

  lemma CallKeepsBeginning(regions: set<nat>, intakeHole: Option<nat>, readHole: Option<nat>,
                           inFlight: Option<Extent>, p: nat)
    requires regions == {} ==> intakeHole == Some(0) && readHole == Some(p)
    ensures BeginsAtZero(regions, intakeHole, None, inFlight) ==>
              (BeginsAtZero(regions, intakeHole, readHole, inFlight) <==> regions != {} || inFlight.Some? || p == 0)
  {
  }

  lemma PutKeepsBeginning(regions: set<nat>, k: nat, readHole: Option<nat>,
                          n: nat, next: Option<nat>, readHole': Option<nat>)
    ensures BeginsAtZero(regions + {k}, next, readHole', None) <==>
              BeginsAtZero(regions, Some(k), readHole, Some(Extent(k, n))) || k == 0
  {
  }

  /** The bytes that are still to come. */
  ghost function MissingBytes(holes: map<nat, nat>, size: nat): set<nat> {
    set p: nat | p < size && Covers(holes, p)
  }

  lemma MissingShrinks(holes: map<nat, nat>, holes': map<nat, nat>, size: nat, e: Extent)
    requires e.size > 0 && Missing(holes, e) && forall q: nat :: Covers(holes, q) ==> q < size
    requires forall q: nat :: Covers(holes', q) <==> Covers(holes, q) && !Within(e, q)
    ensures |MissingBytes(holes', size)| < |MissingBytes(holes, size)|
  {
    var a, b := MissingBytes(holes', size), MissingBytes(holes, size);
    assert Within(e, e.position);
    assert e.position in b && e.position !in a;
    SubsetSize(a + {e.position}, b);
  }

  lemma CachedFilled(regions: map<nat, seq<byte>>, asset: seq<byte>, k: nat, bytes: seq<byte>)
    requires Cached(regions, asset) && k + |bytes| <= |asset| && bytes == asset[k..k + |bytes|]
    ensures Cached(regions[k := bytes], asset)
  {
  }

  /**
   * Once a buffer is put, the cache still agrees with the asset exactly if the buffer does. All of a buffer
   * is put however little of it was read, so a short read spoils the cache unless the rest happens to agree.
   */
  lemma CacheAgreesIff(regions: map<nat, seq<byte>>, asset: seq<byte>, k: nat, bytes: seq<byte>)
    requires Cached(regions, asset)
    ensures Cached(regions[k := bytes], asset) <==>
              k + |bytes| <= |asset| && bytes == asset[k..k + |bytes|]
  {
    assert regions[k := bytes][k] == bytes;
  }

  lemma {:induction false} SubsetSize<T>(a: set<T>, b: set<T>)
    requires a <= b
    ensures |a| <= |b|
    decreases |a|
  {
    if a != {} {
      var x :| x in a;
      SubsetSize(a - {x}, b - {x});
    }
  }

  /** The debug check on what a call returns: nothing is read exactly if there is an error. */
  predicate ResultFits(completed: Option<(Result, nat)>) {
    completed.Some? && ((completed.value.1 == 0) == !completed.value.0.Ok?)
  }

  /** A ReadAt call. The bytes asked for arrive in order; start is where the call began to read. */
  class ReadAtRequest {
    var inProgress: bool
    var position: nat
    var buffer: array<byte>
    var offset: nat
    var originalBytesToRead: nat
    var remainingBytesToRead: nat
    var completed: Option<(Result, nat)>
    ghost var start: nat

    constructor (placeholder: array<byte>)
      ensures !inProgress
    {
      inProgress, position, buffer, offset := false, 0, placeholder, 0;
      originalBytesToRead, remainingBytesToRead, completed, start := 0, 0, None, 0;
    }

    /** The bytes delivered so far are those of the asset from the start. */
    ghost predicate Delivered(asset: seq<byte>)
      reads this, buffer
    {
      && inProgress && offset <= originalBytesToRead <= buffer.Length
      && remainingBytesToRead == originalBytesToRead - offset
      && position == start + offset <= |asset|
      && buffer[..offset] == asset[start..position]
    }

    /** What is left to read of an asset of the given size begins at p and has n bytes. */
    ghost predicate Awaits(asset: seq<byte>, size: nat, p: nat, n: nat)
      reads this, buffer
    {
      Delivered(asset) && start < size && position == p && offset + n == Min(originalBytesToRead, size - start)
    }

    method Start(from: nat, into: array<byte>, bytesToRead: nat)
      requires !inProgress && bytesToRead <= into.Length
      modifies this
      ensures forall asset: seq<byte> :: from <= |asset| ==> Delivered(asset)
      ensures start == position == from && originalBytesToRead == remainingBytesToRead == bytesToRead && buffer == into
      ensures completed == None
    {
      inProgress, position, buffer, offset := true, from, into, 0;
      originalBytesToRead, remainingBytesToRead, completed, start := bytesToRead, bytesToRead, None, from;
    }

    /** Delivers the next bytes. */
    method CopyFrom(source: seq<byte>, ghost asset: seq<byte>)
      requires Delivered(asset) && |source| <= remainingBytesToRead
      requires position + |source| <= |asset| && source == asset[position..position + |source|]
      modifies `position, `offset, `remainingBytesToRead, buffer
      ensures Delivered(asset) && position == old(position) + |source|
    {
      forall i | 0 <= i < |source| {
        buffer[offset + i] := source[i];
      }
      assert buffer[..offset] == old(buffer[..offset]);
      assert buffer[..offset + |source|] == old(buffer[..offset]) + source;
      assert asset[start..position + |source|] == asset[start..position] + source;
      position := position + |source|;
      offset := offset + |source|;
      remainingBytesToRead := remainingBytesToRead - |source|;
    }

    method Complete(result: Result)
      requires remainingBytesToRead <= originalBytesToRead
      modifies `inProgress, `completed
      ensures !inProgress && completed == Some((result, originalBytesToRead - remainingBytesToRead))
      ensures ResultFits(completed) <==> (result.Ok? <==> remainingBytesToRead < originalBytesToRead)
    {
      inProgress := false;
      completed := Some((result, originalBytesToRead - remainingBytesToRead));
    }

    /** The call has returned; it got all that it asked for and the asset has or, after an error, the bytes it says. */
    ghost predicate Returned(result: Result, asset: seq<byte>)
      reads this, buffer
    {
      && completed == Some((result, offset)) && offset <= buffer.Length
      && start + offset <= |asset| && buffer[..offset] == asset[start..start + offset]
      && (result.Ok? ==> offset == Min(originalBytesToRead, |asset| - start))
    }
  }

  /** Regions that come later do not make a lookup wrong, nor does the first one if it begins early enough. */
  lemma LookUpStill(m: map<nat, nat>, n: map<nat, nat>, position: nat)
    requires m.Keys <= n.Keys
    ensures SomeAtOrBefore(m, position) ==> SomeAtOrBefore(n, position)
    ensures forall k :: k in n && k <= position ==> SomeAtOrBefore(n, position)
  {
    if SomeAtOrBefore(m, position) {
      var k :| k in m && k <= position;
      assert k in n;
    }
  }

  /** What a region copy gives the reader. */
  lemma RegionSlice(regions: map<nat, seq<byte>>, asset: seq<byte>, k: nat, from: nat, n: nat)
    requires Cached(regions, asset) && k in regions && k <= from && from + n <= k + |regions[k]|
    ensures regions[k][from - k..from - k + n] == asset[from..from + n]
  {
    var end := k + |regions[k]|;
    assert asset[k..end][from - k..from - k + n] == asset[from..from + n];
  }

  /** No hole begins at a byte that is in a region. */
  lemma NoReadHole(holes: map<nat, nat>, regions: map<nat, nat>, size: nat, k: nat, p: nat)
    requires Partition(holes, regions, size) && At(regions, k, p)
    ensures p !in holes
  {
    assert Covers(regions, p);
    if p in holes {
      assert At(holes, p, p);
      assert Covers(holes, p);
      assert false;
    }
  }

  lemma HolePrefix(holes: map<nat, nat>, k: nat, n: nat)
    requires k in holes && n <= holes[k]
    ensures Missing(holes, Extent(k, n))
  {
    forall q: nat | Within(Extent(k, n), q)
      ensures Covers(holes, q)
    {
      assert At(holes, k, q);
    }
  }

  /** A hole that is split off another does not come before the next one behind bytes that are not missing. */
  lemma NextStays(holes: map<nat, nat>, e: Extent, p: nat)
    requires e.size > 0 && Covers(holes, p) && forall q: nat :: Within(e, q) ==> !Covers(holes, q)
    ensures NextWrapped(holes.Keys + {p}, e.position + e.size) == NextWrapped(holes.Keys, e.position + e.size)
  {
    var k: nat :| At(holes, k, p);
    var end := e.position + e.size;
    assert At(holes, k, k);
    if k < end {
      assert Within(e, end - 1);
      assert !At(holes, k, end - 1);
    }
  }

  /** What was asked for does not change while the call is served. */
  twostate predicate SameCall(r: ReadAtRequest)
    reads r
  {
    unchanged(r`start, r`originalBytesToRead, r`buffer)
  }

  class Store {
    ghost const asset: seq<byte>
    const sparse: SparseByteBuffer
    const size: nat
    var result: Result
    var intakeHole: Option<nat>
    var readHole: Option<nat>
    var readRegion: Option<nat>
    var request: ReadAtRequest?
    var requestPosition: nat
    var requestRemaining: nat

    /** What intake has been asked for and has not put yet. */
    ghost var inFlight: Option<Extent>

    ghost predicate CacheInv()
      reads this, sparse
    {
      && sparse.Valid() && sparse.size == size == |asset| && Cached(sparse.regions, asset)
      && IsIterator(sparse.holes, intakeHole) && (intakeHole.None? ==> sparse.holes == map[])
      && IsIterator(Extents(sparse.regions), readRegion)
    }

    ghost predicate IntakeInv()
      reads this, sparse
    {
      && InFlightOk(sparse.holes, intakeHole, inFlight)
      && (result.Ok? && sparse.regions == map[] ==>
            intakeHole.Some? && intakeHole.value <= if request == null then 0 else requestPosition)
    }

    /** A lookup at the position is right, by RegionLookupRight. */
    ghost predicate CanLookUp(position: nat)
      reads this, sparse
    {
      sparse.regions == map[] || SomeAtOrBefore(Extents(sparse.regions), position)
    }

    /** Every lookup will be right, now and from now on. */
    ghost predicate LookupsRight()
      reads this, sparse
    {
      BeginsAtZero(sparse.regions.Keys, intakeHole, readHole, inFlight)
    }

    ghost predicate ChecksHold()
      reads this, sparse
    {
      FitsHole(sparse.holes, inFlight)
    }

    /** The store and the call agree on what is left to read. */
    ghost predicate RequestInv()
      requires request != null
      reads this, sparse, request, request.buffer
    {
      request.Awaits(asset, size, requestPosition, requestRemaining)
    }

    /** A blocked read waits for a missing byte, which intake is fetching or will fetch next. */
    ghost predicate Blocked()
      reads this, sparse
    {
      && result.Ok? && requestRemaining > 0 && Covers(sparse.holes, requestPosition) && CanLookUp(requestPosition)
      && (readHole == Some(requestPosition) || (inFlight.Some? && Within(inFlight.value, requestPosition)))
    }

    ghost predicate ReadInv()
      reads this, sparse, request, if request != null then {request.buffer} else {}
    {
      && (request != null ==> RequestInv() && Blocked())
      && (readHole.Some? && result.Ok? ==>
            request != null && readHole == Some(requestPosition) && requestPosition in sparse.holes)
    }

    ghost predicate Valid()
      reads this, sparse, request, if request != null then {request.buffer} else {}
    {
      CacheInv() && IntakeInv() && ReadInv()
    }

    /** The store of an asset that is not empty, with nothing cached and intake at its beginning. */
    constructor (ghost content: seq<byte>, n: nat)
      requires n == |content| > 0
      ensures Valid() && fresh(sparse) && asset == content && result == Ok
      ensures request == null && inFlight == None && sparse.holes == map[0 := n] && sparse.regions == map[]
      ensures LookupsRight()
    {
      asset, size := content, n;
      sparse := new SparseByteBuffer(n);
      result, intakeHole, readHole, readRegion := Ok, Some(0), None, None;
      request, requestPosition, requestRemaining, inFlight := null, 0, 0, None;
    }

    /**
     * Accepts a call for bytes within the asset, unless regions are cached that all begin after it. It is
     * over if the bytes are cached and otherwise blocked behind the first missing byte. While nothing is
     * cached or in flight, a call for other bytes than the first makes later lookups go wrong. A call that
     * is blocked within what is in flight breaks the debug checks on its size.
     */
    method SetReadAtRequest(r: ReadAtRequest)
      requires Valid() && request == null
      requires r.Delivered(asset) && r.offset == 0 && r.position < size && r.remainingBytesToRead > 0
      requires result.Ok? ==> CanLookUp(r.position)
      modifies `readHole, `readRegion, `request, `requestPosition, `requestRemaining, sparse`holes
      modifies r, r.buffer
      ensures Valid() && (request == r || request == null) && SameCall(r)
      ensures request == null ==>
                r.Returned(result, asset) && (result.Ok? ==> CachedBetween(r.start, r.start + r.offset))
      ensures forall q: nat :: Covers(sparse.holes, q) <==> old(Covers(sparse.holes, q))
      ensures request == null ==> ResultFits(r.completed)
      ensures result.Ok? && old(LookupsRight()) ==>
                (LookupsRight() <==> sparse.regions != map[] || inFlight.Some? || r.start == 0)
      ensures old(ChecksHold()) ==>
                (ChecksHold() <==>
                   !(request != null && inFlight.Some? && StrictlyWithin(inFlight.value, requestPosition)))
    {
      ghost var was := sparse.holes;
      Accept(r);
      if result.Ok? {
        CallKeepsBeginning(sparse.regions.Keys, intakeHole, readHole, inFlight, r.start);
      }
      if FitsHole(was, inFlight) {
        FitsHoleStill(was, sparse.holes, inFlight, if request == null then None else Some(requestPosition));
      }
    }

    method Accept(r: ReadAtRequest)
      requires Valid() && request == null
      requires r.Delivered(asset) && r.offset == 0 && r.position < size && r.remainingBytesToRead > 0
      requires result.Ok? ==> CanLookUp(r.position)
      modifies `readHole, `readRegion, `request, `requestPosition, `requestRemaining, sparse`holes
      modifies r, r.buffer
      ensures Valid() && (request == r || request == null) && SameCall(r)
      ensures request == null ==>
                r.Returned(result, asset) && (result.Ok? ==> CachedBetween(r.start, r.start + r.offset))
      ensures forall q: nat :: Covers(sparse.holes, q) <==> old(Covers(sparse.holes, q))
      ensures request == null && !result.Ok? ==> r.offset == 0
      ensures sparse.holes.Keys == old(sparse.holes.Keys) + if request == null then {} else {requestPosition}
      ensures result.Ok? && sparse.regions == map[] ==> readHole == Some(r.start)
    {
      SetRequest(r);
      ServeRequest();
    }

    method SetRequest(r: ReadAtRequest)
      requires Valid() && request == null
      requires r.Delivered(asset) && r.offset == 0 && r.position < size && r.remainingBytesToRead > 0
      requires result.Ok? ==> CanLookUp(r.position)
      modifies `request, `requestPosition, `requestRemaining
      ensures Servable() && request == r && requestPosition == r.start
    {
      request := r;
      requestPosition := r.position;
      requestRemaining := r.remainingBytesToRead;
      if requestPosition + requestRemaining > size {
        requestRemaining := size - requestPosition;
      }
    }

    /** What intake should read next, None if there is nothing left to read. */
    method GetIntakePositionAndSize() returns (next: Option<Extent>)
      requires Valid() && result.Ok? && inFlight.None?
      modifies this
      ensures Valid() && inFlight == next && request == old(request) && result == old(result)
      ensures next.None? ==> sparse.holes == map[] && request == null
      ensures next.Some? ==> next.value.size > 0 && Missing(sparse.holes, next.value)
      ensures next.Some? && request != null ==> next.value.position == requestPosition
      ensures next.Some? ==>
                var k := next.value.position;
                && k in sparse.holes && (request == null ==> Some(k) == old(intakeHole))
                && next.value.size ==
                      Min(if request != null then requestRemaining else DEFAULT_READ_SIZE, sparse.holes[k])
      ensures ChecksHold() && (LookupsRight() <==> old(LookupsRight()))
    {
      var n := DEFAULT_READ_SIZE;
      if readHole.Some? {
        intakeHole := readHole;
        readHole := None;
        n := requestRemaining;
      } else if intakeHole.None? {
        return None;
      }
      if n > sparse.holes[intakeHole.value] {
        n := sparse.holes[intakeHole.value];
      }
      next := Some(Extent(intakeHole.value, n));
      HolePrefix(sparse.holes, intakeHole.value, n);
      inFlight := next;
    }

    /** Takes in the bytes that intake was asked for, however the hole they belong in was split meanwhile. */
    method PutIntakeBuffer(position: nat, bytes: seq<byte>)
      requires Valid() && result.Ok? && inFlight == Some(Extent(position, |bytes|))
      requires position + |bytes| <= |asset| && bytes == asset[position..position + |bytes|]
      modifies `intakeHole, `readHole, `readRegion, `request, `requestPosition, `requestRemaining, `inFlight, sparse
      modifies if request != null then {request, request.buffer} else {}
      ensures Valid() && inFlight.None? && result.Ok?
      ensures old(request) != null ==> SameCall(old(request))
      ensures forall q: nat ::
                Covers(sparse.holes, q) <==> old(Covers(sparse.holes, q)) && !Within(old(inFlight.value), q)
      ensures request == null || request == old(request)
      ensures intakeHole == NextWrapped(sparse.holes.Keys, position + |bytes|)
      ensures old(request) != null && request == null ==> old(request).Returned(result, asset)
      ensures old(request) != null && request == null ==> ResultFits(old(request).completed)
      ensures LookupsRight() <==> old(LookupsRight()) || position == 0
      ensures sparse.regions == old(sparse.regions)[position := bytes]
    {
      ghost var (was, rest) := (sparse.regions.Keys, readHole);
      Receive(position, bytes);
      assert sparse.regions.Keys == was + {position};
      PutKeepsBeginning(was, position, rest, |bytes|, intakeHole, readHole);
    }

    method Receive(position: nat, bytes: seq<byte>)
      requires Valid() && result.Ok? && inFlight == Some(Extent(position, |bytes|))
      requires position + |bytes| <= |asset| && bytes == asset[position..position + |bytes|]
      modifies `intakeHole, `readHole, `readRegion, `request, `requestPosition, `requestRemaining, `inFlight, sparse
      modifies if request != null then {request, request.buffer} else {}
      ensures Valid() && inFlight.None? && result.Ok? && sparse.regions == old(sparse.regions)[position := bytes]
      ensures old(request) != null ==> SameCall(old(request))
      ensures forall q: nat ::
                Covers(sparse.holes, q) <==> old(Covers(sparse.holes, q)) && !Within(old(inFlight.value), q)
      ensures request == null || request == old(request)
      ensures intakeHole == NextWrapped(sparse.holes.Keys, position + |bytes|)
      ensures old(request) != null && request == null ==> old(request).Returned(result, asset)
    {
      TakeIn(position, bytes);
      ServeBehind(position, |bytes|);
    }

    /** Serves the call, which does not change where intake goes on behind the bytes put. */
    method ServeBehind(ghost position: nat, ghost n: nat)
      requires Servable() && n > 0 && forall q: nat :: Within(Extent(position, n), q) ==> !Covers(sparse.holes, q)
      requires intakeHole == NextWrapped(sparse.holes.Keys, position + n)
      modifies `readHole, `readRegion, `request, `requestPosition, `requestRemaining, sparse`holes
      modifies if request != null then {request, request.buffer} else {}
      ensures Valid() && inFlight == old(inFlight) && result == old(result) && sparse.regions == old(sparse.regions)
      ensures old(request) != null ==> SameCall(old(request))
      ensures forall q: nat :: Covers(sparse.holes, q) <==> old(Covers(sparse.holes, q))
      ensures request == null || request == old(request)
      ensures old(request) != null && request == null ==> old(request).Returned(result, asset)
      ensures intakeHole == NextWrapped(sparse.holes.Keys, position + n)
    {
      ghost var holes := sparse.holes;
      ServeRequest();
      if request != null {
        NextStays(holes, Extent(position, n), requestPosition);
      } else {
        assert sparse.holes.Keys == holes.Keys;
      }
    }

    method TakeIn(position: nat, bytes: seq<byte>)
      requires Valid() && result.Ok? && inFlight == Some(Extent(position, |bytes|))
      requires position + |bytes| <= |asset| && bytes == asset[position..position + |bytes|]
      modifies `readHole, `intakeHole, `inFlight, sparse
      ensures intakeHole == NextWrapped(sparse.holes.Keys, position + |bytes|)
      ensures Servable() && inFlight.None? && sparse.regions == old(sparse.regions)[position := bytes]
      ensures forall q: nat ::
                Covers(sparse.holes, q) <==> old(Covers(sparse.holes, q)) && !Within(old(inFlight.value), q)
    {
      DropReadHole(position, |bytes|);
      FillIntakeHole(position, bytes);
    }

    /** The read hole is no longer needed once its first byte is being delivered. */
    method DropReadHole(position: nat, n: nat)
      requires Valid() && result.Ok? && inFlight == Some(Extent(position, n))
      modifies `readHole
      ensures Servable() && (readHole.Some? ==> !Within(inFlight.value, readHole.value))
    {
      if readHole.Some? && position <= readHole.value < position + n {
        readHole := None;
      }
    }

    method FillIntakeHole(position: nat, bytes: seq<byte>)
      requires CacheInv() && IntakeInv() && result.Ok? && inFlight == Some(Extent(position, |bytes|))
      requires request != null ==> CanLookUp(requestPosition)
      requires readHole.Some? ==> readHole.value in sparse.holes && !Within(inFlight.value, readHole.value)
      requires position + |bytes| <= |asset| && bytes == asset[position..position + |bytes|]
      modifies `intakeHole, `inFlight, sparse
      ensures CacheInv() && IntakeInv() && inFlight.None?
      ensures sparse.regions == old(sparse.regions)[position := bytes]
      ensures request != null ==> CanLookUp(requestPosition)
      ensures readHole.Some? ==> readHole.value in sparse.holes
      ensures intakeHole == NextWrapped(sparse.holes.Keys, position + |bytes|)
      ensures forall q: nat ::
                Covers(sparse.holes, q) <==> old(Covers(sparse.holes, q)) && !Within(old(inFlight.value), q)
    {
      assert intakeHole == Some(position);
      ghost var filled := sparse.regions[position := bytes];
      LookUpStill(Extents(sparse.regions), Extents(filled), requestPosition);
      assert position in filled;
      FillHole(position, bytes);
      inFlight := None;
    }

    method FillHole(k: nat, bytes: seq<byte>)
      requires CacheInv() && k in sparse.holes && |bytes| > 0 && Missing(sparse.holes, Extent(k, |bytes|))
      requires k + |bytes| <= |asset| && bytes == asset[k..k + |bytes|]
      modifies `intakeHole, sparse
      ensures CacheInv() && sparse.regions == old(sparse.regions)[k := bytes]
      ensures intakeHole == NextWrapped(sparse.holes.Keys, k + |bytes|)
      ensures forall i :: i in old(sparse.holes) && !Within(Extent(k, |bytes|), i) ==> i in sparse.holes
      ensures forall q: nat ::
                Covers(sparse.holes, q) <==> old(Covers(sparse.holes, q)) && !Within(Extent(k, |bytes|), q)
    {
      assert forall q: nat :: k <= q < k + |bytes| ==> Within(Extent(k, |bytes|), q);
      CachedFilled(sparse.regions, asset, k, bytes);
      intakeHole := sparse.Fill(k, bytes);
    }

    ghost predicate CachedBetween(start: nat, end: nat)
      reads this, sparse
    {
      forall q: nat :: start <= q < end ==> !Covers(sparse.holes, q)
    }

    /** The read hole, if there is one, begins with the first byte that the call still needs. */
    ghost predicate ReadHoleOk()
      reads this, sparse
    {
      && (readHole.Some? ==> request != null && readHole == Some(requestPosition) && requestPosition in sparse.holes)
      && (request != null ==> CanLookUp(requestPosition))
    }

    /** What serving a call needs: all but that the call is known to be blocked. */
    ghost predicate Servable()
      reads this, sparse, request, if request != null then {request.buffer} else {}
    {
      && CacheInv() && IntakeInv() && (request != null ==> RequestInv() && requestRemaining > 0)
      && (result.Ok? ==> ReadHoleOk())
    }

    /** Serves the call as far as possible; the call is over unless it is blocked. */
    method ServeRequest()
      requires Servable()
      modifies `readHole, `readRegion, `request, `requestPosition, `requestRemaining, sparse`holes
      modifies if request != null then {request, request.buffer} else {}
      ensures Valid() && inFlight == old(inFlight) && result == old(result) && sparse.regions == old(sparse.regions)
      ensures intakeHole == old(intakeHole)
      ensures old(request) != null ==> SameCall(old(request))
      ensures forall q: nat :: Covers(sparse.holes, q) <==> old(Covers(sparse.holes, q))
      ensures request == null || request == old(request)
      ensures old(request) != null && request == null ==>
                && old(request).Returned(result, asset)
                && (result.Ok? ==> CachedBetween(old(requestPosition), old(request).start + old(request).offset))
                && (!result.Ok? ==> old(request).offset == old(request.offset))
      ensures sparse.holes.Keys == old(sparse.holes.Keys) + if request == null then {} else {requestPosition}
      ensures old(request) != null && result.Ok? && sparse.regions == map[] ==> readHole == Some(old(requestPosition))
    {
      if request != null {
        ServeCall();
      }
    }

    method ServeCall()
      requires Servable() && request != null
      modifies `readHole, `readRegion, `request, `requestPosition, `requestRemaining, sparse`holes, request.buffer
      modifies request`inProgress, request`position, request`offset, request`remainingBytesToRead, request`completed
      ensures Valid()
      ensures forall q: nat :: Covers(sparse.holes, q) <==> old(Covers(sparse.holes, q))
      ensures request == null || request == old(request)
      ensures request == null ==>
                var r := old(request);
                && r.Returned(result, asset)
                && (result.Ok? ==> CachedBetween(old(requestPosition), r.start + r.offset))
                && (!result.Ok? ==> r.offset == old(r.offset))
      ensures sparse.holes.Keys == old(sparse.holes.Keys) + if request == null then {} else {requestPosition}
      ensures result.Ok? && sparse.regions == map[] ==> readHole == Some(old(requestPosition))
    {
      var served := CopyRegions();
      if served {
        EndCall();
      } else {
        Block();
      }
    }

    /** All that the call asks for has been served, or there is an error. */
    method EndCall()
      requires CacheInv() && IntakeInv() && request != null && RequestInv()
      requires result.Ok? ==> requestRemaining == 0 && readHole == None && sparse.regions != map[]
      modifies `request, request`inProgress, request`completed
      ensures Valid() && request == null && old(request).Returned(result, asset)
      ensures old(request).start + old(request).offset == old(requestPosition)
    {
      var done := request;
      request := null;
      done.Complete(result);
    }

    /** Copies from the region at the read position until all is served, or there is an error or no region there. */
    method CopyRegions() returns (served: bool)
      requires Servable() && request != null
      modifies `readRegion, `requestPosition, `requestRemaining, request.buffer
      modifies request`position, request`offset, request`remainingBytesToRead
      ensures CacheInv() && IntakeInv() && RequestInv() && (result.Ok? ==> ReadHoleOk())
      ensures CachedBetween(old(requestPosition), requestPosition)
      ensures !result.Ok? ==> served && request.offset == old(request.offset)
      ensures sparse.regions == map[] ==> requestPosition == old(requestPosition)
      ensures result.Ok? ==>
                if served then requestRemaining == 0 && readHole == None && sparse.regions != map[]
                else requestRemaining > 0 && !Covers(Extents(sparse.regions), requestPosition)
    {
      while result.Ok? && requestRemaining != 0
        invariant CacheInv() && IntakeInv() && RequestInv() && (result.Ok? ==> ReadHoleOk())
        invariant CachedBetween(old(requestPosition), requestPosition)
        invariant !result.Ok? ==> request.offset == old(request.offset)
        invariant requestRemaining == 0 && result.Ok? ==> readHole == None
        invariant sparse.regions == map[] ==>
                    (requestPosition, requestRemaining) == old((requestPosition, requestRemaining))
        decreases requestRemaining
      {
        served := CopyNext();
        if !served {
          return;
        }
      }
      return true;
    }

    /** Copies from the region at the read position, if there is one. */
    method CopyNext() returns (copied: bool)
      requires CacheInv() && IntakeInv() && request != null && RequestInv() && ReadHoleOk()
      requires result.Ok? && requestRemaining > 0
      modifies `readRegion, `requestPosition, `requestRemaining
      modifies request`position, request`offset, request`remainingBytesToRead, request.buffer
      ensures CacheInv() && IntakeInv() && RequestInv() && ReadHoleOk()
      ensures CachedBetween(old(requestPosition), requestPosition)
      ensures if copied then requestRemaining < old(requestRemaining) && readHole == None && sparse.regions != map[]
              else requestPosition == old(requestPosition) && requestRemaining == old(requestRemaining) &&
                   !Covers(Extents(sparse.regions), requestPosition)
    {
      readRegion := FindReadRegion();
      copied := readRegion.Some?;
      if copied {
        CopyFromRegion(readRegion.value);
      }
    }

    /** Looks up the read position; where there is a region, no hole is waiting to be read. */
    method FindReadRegion() returns (region: Option<nat>)
      requires CacheInv() && IntakeInv() && request != null && ReadHoleOk() && result.Ok?
      ensures IsIterator(Extents(sparse.regions), region) && Right(Extents(sparse.regions), requestPosition, region)
      ensures region.Some? ==> readHole == None
    {
      region := sparse.FindRegionContaining(requestPosition, readRegion);
      if region.Some? {
        NoReadHole(sparse.holes, Extents(sparse.regions), size, region.value, requestPosition);
      }
    }

    /** Makes the hole at the read position the one to read next. */
    method Block()
      requires CacheInv() && IntakeInv() && request != null && RequestInv() && ReadHoleOk()
      requires result.Ok? && requestRemaining > 0 && !Covers(Extents(sparse.regions), requestPosition)
      modifies `readHole, sparse`holes
      ensures Valid() && Blocked()
      ensures readHole == Some(requestPosition) && sparse.holes.Keys == old(sparse.holes.Keys) + {requestPosition}
      ensures forall q: nat :: Covers(sparse.holes, q) <==> old(Covers(sparse.holes, q))
    {
      assert Covers(sparse.holes, requestPosition);
      readHole := sparse.FindOrCreateHole(requestPosition, intakeHole);
    }

    method CopyFromRegion(k: nat)
      requires CacheInv() && request != null && RequestInv() && requestRemaining > 0
      requires k in sparse.regions && k <= requestPosition < k + |sparse.regions[k]|
      modifies `requestPosition, `requestRemaining, request`position, request`offset, request`remainingBytesToRead,
               request.buffer
      ensures CacheInv() && RequestInv() && requestRemaining < old(requestRemaining)
      ensures CachedBetween(old(requestPosition), requestPosition)
    {
      var bytesToCopy := k + |sparse.regions[k]| - requestPosition;
      if bytesToCopy > requestRemaining {
        bytesToCopy := requestRemaining;
      }
      var from := requestPosition - k;
      RegionSlice(sparse.regions, asset, k, requestPosition, bytesToCopy);
      request.CopyFrom(sparse.regions[k][from..from + bytesToCopy], asset);
      forall q: nat | requestPosition <= q < requestPosition + bytesToCopy
        ensures !Covers(sparse.holes, q)
      {
        assert At(Extents(sparse.regions), k, q);
        assert Covers(Extents(sparse.regions), q);
      }
      requestPosition := requestPosition + bytesToCopy;
      requestRemaining := requestRemaining - bytesToCopy;
    }

    /**
     * An error ends intake and the call that is waiting, with the bytes it has got so far. The debug check
     * on what a call returns holds only if those are none.
     */
    method ReportIntakeError(error: Result)
      requires Valid() && !error.Ok?
      modifies this, sparse
      modifies if request != null then {request, request.buffer} else {}
      ensures Valid() && result == error && request == null
      ensures old(request) != null ==> old(request).completed == Some((error, old(request.offset)))
      ensures old(request) != null ==> (ResultFits(old(request).completed) <==> old(request.offset) == 0)
      ensures old(request) != null ==> old(request).Returned(result, asset)
    {
      SetResult(error);
      ServeRequest();
    }

    method SetResult(error: Result)
      requires Valid() && !error.Ok?
      modifies `result, `inFlight
      ensures Servable() && result == error
    {
      result := error;
      inFlight := None;
    }
  }

  /** Intake reads from upstream into the store, each time as much as it was asked for. */
  class Intake {
    const store: Store
    const upstream: seq<byte>

    constructor (s: Store, content: seq<byte>)
      ensures store == s && upstream == content
    {
      store, upstream := s, content;
    }

    /** Goes on until the whole asset is cached; a call that was waiting has then got all it asked for. */
    method Continue(ghost r: ReadAtRequest?)
      requires store.Valid() && store.result.Ok? && store.inFlight.None?
      requires store.request == r && upstream == store.asset
      modifies store, store.sparse
      modifies if r != null then {r, r.buffer} else {}
      ensures store.Valid() && store.sparse.holes == map[] && store.request == null && store.LookupsRight()
      ensures r != null ==> SameCall(r) && r.Returned(Ok, upstream)
      decreases |MissingBytes(store.sparse.holes, store.size)|
    {
      var next := store.GetIntakePositionAndSize();
      if next.None? {
        BeginningCached(Extents(store.sparse.regions), store.size);
        return;
      }
      Read(next.value, r);
      Continue(store.request);
    }

    /** One read from upstream; fewer bytes are missing after it. */
    method Read(next: Extent, ghost r: ReadAtRequest?)
      requires store.Valid() && store.result.Ok? && store.inFlight == Some(next)
      requires store.request == r && upstream == store.asset
      modifies store, store.sparse
      modifies if r != null then {r, r.buffer} else {}
      ensures store.Valid() && store.result.Ok? && store.inFlight.None?
      ensures store.request == r || store.request == null
      ensures r != null ==> SameCall(r) && (store.request == null ==> r.Returned(Ok, upstream))
      ensures |MissingBytes(store.sparse.holes, store.size)| < |old(MissingBytes(store.sparse.holes, store.size))|
    {
      ghost var holes := store.sparse.holes;
      InFlightWithin(holes, store.size, next);
      store.PutIntakeBuffer(next.position, upstream[next.position..next.position + next.size]);
      MissingShrinks(holes, store.sparse.holes, store.size, next);
    }
  }

  // ----- runs in which a debug check fails or a lookup goes wrong

  method Call(position: nat, n: nat, ghost asset: seq<byte>) returns (r: ReadAtRequest)
    requires position < |asset| && n > 0
    ensures fresh(r) && fresh(r.buffer) && r.Delivered(asset) && r.offset == 0 && r.start == position
    ensures r.originalBytesToRead == n
  {
    var into := new byte[n];
    r := new ReadAtRequest(into);
    r.Start(position, into, n);
  }

  /** A read that begins strictly inside what intake is fetching splits the hole that is being filled. */
  method ReadInsideFetch(store: Store, p: nat)
    requires store.Valid() && store.result.Ok? && store.request == null && store.CanLookUp(p) && store.ChecksHold()
    requires store.inFlight.Some? && StrictlyWithin(store.inFlight.value, p)
    modifies store, store.sparse
    ensures store.Valid() && store.result.Ok? && !store.ChecksHold()
  {
    InFlightWithin(store.sparse.holes, store.size, store.inFlight.value);
    var r := Call(p, 1, store.asset);
    assert Covers(store.sparse.holes, p);
    store.SetReadAtRequest(r);
  }

  /** Intake that has just begun can be read into. */
  method BeginIntake(asset: seq<byte>) returns (store: Store)
    requires |asset| > 0
    ensures fresh(store) && fresh(store.sparse) && store.Valid() && store.result.Ok? && store.request == null
    ensures store.sparse.regions == map[] && store.ChecksHold()
    ensures store.inFlight == Some(Extent(0, Min(DEFAULT_READ_SIZE, |asset|)))
  {
    store := new Store(asset, |asset|);
    var next := store.GetIntakePositionAndSize();
  }

  method FetchIsSplit(asset: seq<byte>, p: nat) returns (store: Store)
    requires 0 < p < Min(DEFAULT_READ_SIZE, |asset|)
    ensures store.Valid() && store.result.Ok? && !store.ChecksHold()
  {
    store := BeginIntake(asset);
    ReadInsideFetch(store, p);
  }

  /** A read elsewhere than at the beginning that comes before all intake makes the lookup of the beginning wrong. */
  method ReadBeforeIntake(asset: seq<byte>, p: nat) returns (store: Store)
    requires 0 < p < |asset|
    ensures store.Valid() && store.result.Ok?
    ensures !Right(Extents(store.sparse.regions), 0, FindRegion(Extents(store.sparse.regions), 0, None))
  {
    var r;
    store, r := EarlyRead(asset, p);
    FirstFetch(store, asset, r);
    RegionLookupRight(Extents(store.sparse.regions), 0, None);
  }

  lemma AllMissing(n: nat)
    ensures forall q: nat :: q < n ==> Covers(map[0 := n], q)
  {
    forall q: nat | q < n
      ensures Covers(map[0 := n], q)
    {
      assert At(map[0 := n], 0, q);
    }
  }

  method EarlyRead(asset: seq<byte>, p: nat) returns (store: Store, r: ReadAtRequest)
    requires p < |asset|
    ensures fresh(store) && fresh(store.sparse) && fresh(r) && fresh(r.buffer)
    ensures store.Valid() && store.result.Ok? && store.inFlight.None? && store.request == r && asset == store.asset
    ensures r.start == p && r.originalBytesToRead == 1
    ensures store.sparse.regions == map[] && (store.LookupsRight() <==> p == 0)
    ensures forall q: nat :: q < |asset| ==> Covers(store.sparse.holes, q)
  {
    store := new Store(asset, |asset|);
    AllMissing(|asset|);
    r := Call(p, 1, asset);
    store.SetReadAtRequest(r);
    assert Covers(store.sparse.holes, p);
  }

  /** A blocked call for one byte waits for just that. */
  lemma WaitsForOne(store: Store)
    requires store.Valid() && store.request != null && store.request.originalBytesToRead == 1
    ensures store.requestPosition == store.request.start && store.requestRemaining == 1
    ensures Covers(store.sparse.holes, store.request.start)
  {
  }

  /** Intake reads the one byte that is asked for. */
  method FirstFetch(store: Store, asset: seq<byte>, ghost r: ReadAtRequest)
    requires store.Valid() && store.result.Ok? && store.inFlight.None? && store.request == r && asset == store.asset
    requires store.sparse.regions == map[] && r.originalBytesToRead == 1
    modifies store, store.sparse, r, r.buffer
    ensures store.Valid() && store.result.Ok? && (store.request == null || store.request == r) && SameCall(r)
    ensures store.sparse.regions != map[]
    ensures store.LookupsRight() <==> old(store.LookupsRight())
    ensures forall q: nat :: Covers(store.sparse.holes, q) <==> old(Covers(store.sparse.holes, q)) && q != r.start
  {
    WaitsForOne(store);
    var next := store.GetIntakePositionAndSize();
    store.PutIntakeBuffer(next.value.position, asset[next.value.position..next.value.position + 1]);
  }

  /**
   * An error that comes while a call waits for a byte behind its first one returns both the bytes
   * so far and the error.
   */
  method ErrorDuringCall(store: Store, p: nat, n: nat) returns (r: ReadAtRequest)
    requires store.Valid() && store.result.Ok? && store.request == null && store.CanLookUp(p)
    requires p < p + n <= |store.asset|
    requires !Covers(store.sparse.holes, p) && !store.CachedBetween(p, p + n)
    modifies store, store.sparse
    ensures r.completed.Some? && !ResultFits(r.completed)
  {
    r := Call(p, n, store.asset);
    store.SetReadAtRequest(r);
    store.ReportIntakeError(UnknownError);
  }

  method ErrorAfterPart(asset: seq<byte>) returns (r: ReadAtRequest)
    requires |asset| > 1
    ensures r.completed.Some? && !ResultFits(r.completed)
  {
    var store;
    store, r := EarlyRead(asset, 0);
    FirstFetch(store, asset, r);
    if store.request != null {
      WaitsForOne(store);
      assert false;
    }
    assert Covers(store.sparse.holes, 1);
    r := ErrorDuringCall(store, 0, 2);
  }

  lemma BeginningCached(regions: map<nat, nat>, size: nat)
    requires Partition(map[], regions, size) && size > 0
    ensures 0 in regions
  {
    assert Covers(regions, 0);
  }

  lemma InFlightWithin(holes: map<nat, nat>, size: nat, e: Extent)
    requires Missing(holes, e) && e.size > 0 && forall q: nat :: Covers(holes, q) ==> q < size
    ensures e.position + e.size <= size
  {
    assert Within(e, e.position + e.size - 1);
  }
}
