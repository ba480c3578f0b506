// The producer and the consumer connected by two FIFO channels: every
// interleaving of their steps, and what all of them keep.

module TransportProtocol {
  import opened Options
  import opened TransportSteps
  import opened Sequences

  /**
   * held are the packets the consumer has, returning the ones whose return has begun,
   * innermost last. local and remote are the buffer sets at the two ends and updates
   * the changes to local that the producer has not sent yet.
   */
  datatype System = System(
    p: Producer,
    c: Consumer,
    requests: seq<Request>,
    replies: seq<Reply>,
    held: multiset<nat>,
    returning: seq<nat>,
    local: map<nat, nat>,
    updates: seq<BufferUpdate>,
    remote: map<nat, nat>,
    failed: bool)

  const INITIAL: System :=
    System(INITIAL_PRODUCER, INITIAL_CONSUMER, [], [], multiset{}, [], map[], [], map[], false)

  datatype Action =
    | Connect
    | StartFlush
    | Produce(payload: Payload, pts: int, endOfStream: bool)
    | ReceiveReply
    | PullAgain
    | UpdateBuffers(update: BufferUpdate)
    | ChangeDemand(demand: Demand)
    | ReceiveRequest
    | StartReturn(number: nat)
    | FinishReturn
    | FinishFlush

  predicate Enabled(s: System, a: Action) {
    match a
    case Connect => !s.p.connected
    case StartFlush => s.p.connected
    case Produce(payload, _, _) => s.p.connected && Validate(s.local, payload)
    case ReceiveReply => s.replies != [] && !s.p.pulling && (s.replies[0].PacketReply? ==> s.p.packetsOutstanding > 0)
    case PullAgain => s.p.pulling
    case UpdateBuffers(u) => Applicable(s.local, u)
    case ChangeDemand(_) => true
    case ReceiveRequest => s.requests != [] && s.returning == []
    case StartReturn(number) => number in s.held && s.c.packetsOutstanding > 0
    case FinishReturn => s.returning != []
    case FinishFlush => s.c.flushCallbacks > 0
  }

  function AtProducer(s: System, r: (Producer, seq<Request>)): System {
    s.(p := r.0, requests := s.requests + r.1)
  }

  function AtConsumer(s: System, r: (Consumer, seq<Reply>)): System {
    s.(c := r.0, replies := s.replies + r.1)
  }

  /** The consumer handles the first request; a packet it cannot validate makes it fail. */
  function Handle(s: System): System
    requires s.requests != []
  {
    var s' := s.(requests := s.requests[1..]);
    match s.requests[0]
    case PullDemandUpdate => AtConsumer(s', AcceptPull(s.c))
    case ChangeBuffer(u) => s'.(remote := Apply(s.remote, u), failed := s.failed || !Applicable(s.remote, u))
    case SupplyPacket(number, payload) =>
      if Validate(s.remote, payload)
      then s'.(c := AcceptPacket(s.c), held := s.held + multiset{number})
      else s'.(failed := true)
    case Flush => s'.(c := AcceptFlush(s.c))
  }

  function Next(s: System, a: Action): System
    requires Enabled(s, a)
  {
    match a
    case Connect => AtProducer(s, Connected(s.p))
    case StartFlush => AtProducer(s, FlushConsumer(s.p))
    case Produce(payload, pts, eos) => AtProducer(s, ProducePacket(s.p, s.updates, payload, pts, eos)).(updates := [])
    case ReceiveReply => s.(p := Receive(s.p, s.replies[0]), replies := s.replies[1..])
    case PullAgain => AtProducer(s, Pulled(s.p))
    case UpdateBuffers(u) => s.(local := Apply(s.local, u), updates := s.updates + [u])
    case ChangeDemand(d) => AtConsumer(s, SetDemand(s.c, d))
    case ReceiveRequest => Handle(s)
    case StartReturn(number) =>
      s.(c := BeginReturn(s.c), held := s.held - multiset{number}, returning := s.returning + [number])
    case FinishReturn =>
      var last := |s.returning| - 1;
      AtConsumer(s, EndReturn(s.c, s.returning[last])).(returning := s.returning[..last])
    case FinishFlush => AtConsumer(s, CompleteFlush(s.c))
  }

  /** Whether the producer starts a flush before the previous one has been answered. */
  predicate Overlaps(s: System, a: Action) {
    a.StartFlush? && s.p.flushInProgress
  }

  /** t is reached from s by the actions, with overlapping flushes only if they are allowed. */
  ghost predicate Runs(overlapAllowed: bool, s: System, actions: seq<Action>, t: System)
    decreases |actions|
  {
    if actions == [] then s == t
    else
      && Enabled(s, actions[0]) && (overlapAllowed || !Overlaps(s, actions[0]))
      && Runs(overlapAllowed, Next(s, actions[0]), actions[1..], t)
  }

  // ----- pull tokens

  function PullWeight(r: Request): nat {
    if r.PullDemandUpdate? then 1 else 0
  }

  function DemandReplyWeight(r: Reply): nat {
    if r.DemandReply? then 1 else 0
  }

  function Bit(b: bool): nat {
    if b then 1 else 0
  }

  /** Pulls on their way, waiting at the consumer, answered, or about to be sent again. */
  function PullTokens(s: System): nat {
    Sum(s.requests, PullWeight) + Bit(s.c.callback) + Sum(s.replies, DemandReplyWeight) + Bit(s.p.pulling)
  }

  // ----- flushes

  function FlushWeight(r: Request): nat {
    if r.Flush? then 1 else 0
  }

  function FlushReplyWeight(r: Reply): nat {
    if r.FlushReply? then 1 else 0
  }

  function FlushesUnanswered(s: System): nat {
    Sum(s.requests, FlushWeight) + s.c.flushCallbacks
  }

  // ----- packets

  function RequestLabels(r: Request): multiset<nat> {
    if r.SupplyPacket? then multiset{r.number} else multiset{}
  }

  function ReplyLabels(r: Reply): multiset<nat> {
    if r.PacketReply? then multiset{r.number} else multiset{}
  }

  /** Every packet that was supplied and whose return the producer has not seen. */
  function Packets(s: System): multiset<nat> {
    Union(s.requests, RequestLabels) + s.held + multiset(s.returning) + Union(s.replies, ReplyLabels)
  }

  // ----- demand

  /** What a reply does to the producer's flush flag and demand. */
  function Hear(flushing: bool, demand: Demand, r: Reply): (bool, Demand) {
    match r
    case FlushReply => (false, demand)
    case DemandReply(d) => (flushing, if flushing then demand else d)
    case PacketReply(_, Some(d)) => (flushing, if flushing then demand else d)
    case PacketReply(_, None) => (flushing, demand)
  }

  /** What the flag and demand will be once the producer has received the replies. */
  function Heard(flushing: bool, demand: Demand, q: seq<Reply>): (bool, Demand)
    decreases |q|
  {
    if q == [] then (flushing, demand)
    else
      var (f, d) := Hear(flushing, demand, q[0]);
      Heard(f, d, q[1..])
  }

  lemma {:induction false} HeardConcat(flushing: bool, demand: Demand, q: seq<Reply>, r: seq<Reply>)
    ensures var (f, d) := Heard(flushing, demand, q); Heard(flushing, demand, q + r) == Heard(f, d, r)
    decreases |q|
  {
    if q == [] {
      assert q + r == r;
    } else {
      assert (q + r)[1..] == q[1..] + r;
      var (f, d) := Hear(flushing, demand, q[0]);
      HeardConcat(f, d, q[1..], r);
    }
  }

  lemma {:induction false} HeardWhileFlushing(demand: Demand, q: seq<Reply>)
    requires Sum(q, FlushReplyWeight) == 0
    ensures Heard(true, demand, q) == (true, demand)
    decreases |q|
  {
    if q != [] {
      HeardWhileFlushing(demand, q[1..]);
    }
  }

  // ----- buffers

  /** Whether every buffer change applies and every packet validates when it is handled in turn. */
  ghost predicate Deliverable(buffers: map<nat, nat>, q: seq<Request>)
    decreases |q|
  {
    q == [] ||
    match q[0]
    case ChangeBuffer(u) => Applicable(buffers, u) && Deliverable(Apply(buffers, u), q[1..])
    case SupplyPacket(_, payload) => Validate(buffers, payload) && Deliverable(buffers, q[1..])
    case _ => Deliverable(buffers, q[1..])
  }

  /** The buffer set after the requests have been handled. */
  function After(buffers: map<nat, nat>, q: seq<Request>): map<nat, nat>
    decreases |q|
  {
    if q == [] then buffers
    else After(if q[0].ChangeBuffer? then Apply(buffers, q[0].update) else buffers, q[1..])
  }

  lemma {:induction false} DeliverableConcat(buffers: map<nat, nat>, q: seq<Request>, r: seq<Request>)
    ensures Deliverable(buffers, q + r) <==> Deliverable(buffers, q) && Deliverable(After(buffers, q), r)
    ensures After(buffers, q + r) == After(After(buffers, q), r)
    decreases |q|
  {
    if q == [] {
      assert q + r == r;
    } else {
      assert (q + r)[1..] == q[1..] + r;
      DeliverableConcat(if q[0].ChangeBuffer? then Apply(buffers, q[0].update) else buffers, q[1..], r);
    }
  }

  lemma {:induction false} ChangesWeighNothing(updates: seq<BufferUpdate>)
    ensures var q := ChangeRequests(updates);
            Sum(q, PullWeight) == 0 && Sum(q, FlushWeight) == 0 && Union(q, RequestLabels) == multiset{}
  {
    if updates != [] {
      ChangesWeighNothing(updates[1..]);
      assert ChangeRequests(updates)[1..] == ChangeRequests(updates[1..]);
    }
  }

  lemma {:induction false} ChangeRequestsAppend(updates: seq<BufferUpdate>, u: BufferUpdate)
    ensures ChangeRequests(updates + [u]) == ChangeRequests(updates) + [ChangeBuffer(u)]
  {
    if updates == [] {
      assert ChangeRequests([u]) == [ChangeBuffer(u)] + ChangeRequests([]);
    } else {
      assert (updates + [u])[1..] == updates[1..] + [u];
      ChangeRequestsAppend(updates[1..], u);
    }
  }

  predicate Known(buffers: map<nat, nat>, id: nat, offset: nat) {
    id in buffers && offset < buffers[id]
  }

  /** A payload is valid exactly if each of its bytes lies in a buffer that is known. */
  lemma ValidateMeans(buffers: map<nat, nat>, p: Payload)
    ensures Validate(buffers, p) <==>
              forall k: nat :: p.offset <= k < p.offset + p.size ==> Known(buffers, p.buffer, k)
  {
    if p.size > 0 && !Validate(buffers, p) {
      assert !Known(buffers, p.buffer, p.offset + p.size - 1);
    }
  }

  // ----- the invariant

  /** There is one pull token once connected, and an update never waits for nothing. */
  ghost predicate PullInv(s: System) {
    && PullTokens(s) == Bit(s.p.connected)
    && (s.c.callback && s.c.updateRequired ==> s.c.returningPacket)
    && (s.c.returningPacket ==> s.returning != [])
  }

  ghost predicate FlushInv(s: System) {
    && FlushesUnanswered(s) + Sum(s.replies, FlushReplyWeight) == Bit(s.p.flushInProgress)
    && (s.c.flushPending <==> s.c.flushCallbacks > 0)
  }

  /**
   * Unless a flush is still unanswered, the producer will hear of the consumer's demand
   * from the replies under way, or the consumer still has to send it.
   */
  ghost predicate DemandInv(s: System) {
    var (flushing, demand) := Heard(s.p.flushInProgress, s.p.demand, s.replies);
    && flushing == (FlushesUnanswered(s) > 0)
    && (flushing ==> demand == NO_DEMAND && (s.c.flushCallbacks > 0 ==> s.c.demand == NO_DEMAND))
    && (!flushing ==> demand == s.c.demand || s.c.updateRequired)
  }

  /** Every packet is in one place, and both ends count theirs right. */
  ghost predicate PacketInv(s: System) {
    && |Packets(s)| == s.p.packetsOutstanding
    && |s.held| == s.c.packetsOutstanding
    && Issued(Packets(s), s.p.prevPacketLabel)
  }

  /** Each packet occurs once and its label has been issued. */
  ghost predicate Issued(packets: multiset<nat>, last: nat) {
    forall n :: n in packets ==> packets[n] == 1 && n <= last
  }

  /** Replaying what is under way and what is queued turns the remote buffer set into the local one. */
  ghost predicate BufferInv(s: System) {
    var pending := s.requests + ChangeRequests(s.updates);
    Deliverable(s.remote, pending) && After(s.remote, pending) == s.local && !s.failed
  }

  ghost predicate Inv(s: System) {
    PullInv(s) && FlushInv(s) && DemandInv(s) && PacketInv(s) && BufferInv(s)
  }

  lemma InitialInv()
    ensures Inv(INITIAL)
  {
  }

  lemma PullStepProducer(s: System, a: Action)
    requires PullInv(s) && Enabled(s, a)
    requires a.Connect? || a.StartFlush? || a.PullAgain? || a.ReceiveReply?
    ensures PullInv(Next(s, a))
  {
    SumOfAppend(s.requests, PullDemandUpdate, PullWeight);
    SumOfAppend(s.requests, Flush, PullWeight);
  }

  lemma PullStepProduce(s: System, a: Action)
    requires PullInv(s) && Enabled(s, a) && a.Produce?
    ensures PullInv(Next(s, a))
  {
    ChangesWeighNothing(s.updates);
    var q, r := ChangeRequests(s.updates), SupplyPacket(s.p.prevPacketLabel + 1, a.payload);
    SumOfAppend(q, r, PullWeight);
    SumOfConcat(s.requests, q + [r], PullWeight);
  }

  lemma PullStepConsumer(s: System, a: Action)
    requires PullInv(s) && Enabled(s, a)
    requires a.ChangeDemand? || a.StartReturn? || a.FinishReturn? || a.FinishFlush? || a.UpdateBuffers?
    ensures PullInv(Next(s, a))
  {
    forall r: Reply
      ensures Sum(s.replies + [r], DemandReplyWeight) == Sum(s.replies, DemandReplyWeight) + DemandReplyWeight(r)
    {
      SumOfAppend(s.replies, r, DemandReplyWeight);
    }
    assert s.replies + [] == s.replies;
  }

  lemma PullStepHandle(s: System, a: Action)
    requires PullInv(s) && Enabled(s, a) && a.ReceiveRequest?
    ensures PullInv(Next(s, a))
  {
    if s.requests[0].PullDemandUpdate? {
      AcceptPullSends(s.c);
      SumOfAppend(s.replies, DemandReply(s.c.demand), DemandReplyWeight);
      assert s.replies + [] == s.replies;
    }
  }

  /** A pull that finds none waiting is answered at once or kept. */
  lemma AcceptPullSends(c: Consumer)
    requires !c.callback
    ensures AcceptPull(c) == MaybeCompletePull(c.(callback := true))
  {
    var late := MaybeCompletePull(c.(callback := true)).1;
    assert [] + late == late;
  }

  lemma FlushStepProducer(s: System, a: Action)
    requires FlushInv(s) && Enabled(s, a) && !Overlaps(s, a)
    requires a.Connect? || a.StartFlush? || a.PullAgain? || a.ReceiveReply?
    ensures FlushInv(Next(s, a))
  {
    SumOfAppend(s.requests, PullDemandUpdate, FlushWeight);
    SumOfAppend(s.requests, Flush, FlushWeight);
  }

  lemma FlushStepProduce(s: System, a: Action)
    requires FlushInv(s) && Enabled(s, a) && a.Produce?
    ensures FlushInv(Next(s, a))
  {
    ChangesWeighNothing(s.updates);
    var q, r := ChangeRequests(s.updates), SupplyPacket(s.p.prevPacketLabel + 1, a.payload);
    SumOfAppend(q, r, FlushWeight);
    SumOfConcat(s.requests, q + [r], FlushWeight);
  }

  lemma FlushStepConsumer(s: System, a: Action)
    requires FlushInv(s) && Enabled(s, a)
    requires a.ChangeDemand? || a.StartReturn? || a.FinishReturn? || a.FinishFlush? || a.UpdateBuffers?
    ensures FlushInv(Next(s, a))
  {
    forall r: Reply
      ensures Sum(s.replies + [r], FlushReplyWeight) == Sum(s.replies, FlushReplyWeight) + FlushReplyWeight(r)
    {
      SumOfAppend(s.replies, r, FlushReplyWeight);
    }
    assert s.replies + [] == s.replies;
  }

  lemma FlushStepHandle(s: System, a: Action)
    requires PullInv(s) && FlushInv(s) && Enabled(s, a) && a.ReceiveRequest?
    ensures FlushInv(Next(s, a))
  {
    if s.requests[0].PullDemandUpdate? {
      FlushStepPull(s);
    }
  }

  lemma FlushStepPull(s: System)
    requires PullInv(s) && FlushInv(s) && s.requests != [] && s.requests[0].PullDemandUpdate?
    ensures FlushInv(Handle(s))
  {
    PullAtConsumer(s);
    AcceptPullSends(s.c);
    SumOfAppend(s.replies, DemandReply(s.c.demand), FlushReplyWeight);
    assert s.replies + [] == s.replies;
  }

  /** A pull that arrives finds no other waiting. */
  lemma PullAtConsumer(s: System)
    requires PullInv(s) && s.requests != [] && s.requests[0].PullDemandUpdate?
    ensures !s.c.callback
  {
  }

  lemma DemandStepProducer(s: System, a: Action)
    requires FlushInv(s) && DemandInv(s) && Enabled(s, a) && !Overlaps(s, a)
    requires a.Connect? || a.StartFlush? || a.PullAgain? || a.ReceiveReply?
    ensures DemandInv(Next(s, a))
  {
    SumOfAppend(s.requests, PullDemandUpdate, FlushWeight);
    SumOfAppend(s.requests, Flush, FlushWeight);
    if a.StartFlush? {
      HeardWhileFlushing(NO_DEMAND, s.replies);
    }
  }

  lemma DemandStepProduce(s: System, a: Action)
    requires DemandInv(s) && Enabled(s, a) && a.Produce?
    ensures DemandInv(Next(s, a))
  {
    ChangesWeighNothing(s.updates);
    var q, r := ChangeRequests(s.updates), SupplyPacket(s.p.prevPacketLabel + 1, a.payload);
    SumOfAppend(q, r, FlushWeight);
    SumOfConcat(s.requests, q + [r], FlushWeight);
  }

  lemma HeardAppend(s: System, r: Reply)
    ensures var (f, d) := Heard(s.p.flushInProgress, s.p.demand, s.replies);
            Heard(s.p.flushInProgress, s.p.demand, s.replies + [r]) == Hear(f, d, r)
  {
    HeardConcat(s.p.flushInProgress, s.p.demand, s.replies, [r]);
    assert [r][1..] == [];
  }

  lemma DemandStepConsumer(s: System, a: Action)
    requires PullInv(s) && FlushInv(s) && DemandInv(s) && Enabled(s, a)
    requires a.ChangeDemand? || a.StartReturn? || a.FinishReturn? || a.FinishFlush? || a.UpdateBuffers?
    ensures DemandInv(Next(s, a))
  {
    forall r: Reply
      ensures var (f, d) := Heard(s.p.flushInProgress, s.p.demand, s.replies);
              Heard(s.p.flushInProgress, s.p.demand, s.replies + [r]) == Hear(f, d, r)
    {
      HeardAppend(s, r);
    }
    assert s.replies + [] == s.replies;
  }

  lemma DemandStepHandle(s: System, a: Action)
    requires PullInv(s) && FlushInv(s) && DemandInv(s) && Enabled(s, a) && a.ReceiveRequest?
    ensures DemandInv(Next(s, a))
  {
    if s.requests[0].PullDemandUpdate? {
      PullAtConsumer(s);
      AcceptPullSends(s.c);
      HeardAppend(s, DemandReply(s.c.demand));
      assert s.replies + [] == s.replies;
    }
  }

  lemma PacketStepProducer(s: System, a: Action)
    requires PacketInv(s) && Enabled(s, a)
    requires a.Connect? || a.StartFlush? || a.PullAgain?
    ensures PacketInv(Next(s, a))
  {
    UnionOfAppend(s.requests, PullDemandUpdate, RequestLabels);
    UnionOfAppend(s.requests, Flush, RequestLabels);
    assert Packets(Next(s, a)) == Packets(s);
  }

  /** How the four places add up when one of them changes. */
  lemma Places(a: multiset<nat>, b: multiset<nat>, c: multiset<nat>, d: multiset<nat>, x: multiset<nat>)
    ensures (a + x) + b + c + d == (a + b + c + d) + x
    ensures (x + a) + b + c + d == (a + b + c + d) + x
    ensures a + (b + x) + c + d == (a + b + c + d) + x
    ensures a + b + c + (x + d) == (a + b + c + d) + x
  {
  }

  lemma IssuedPart(packets: multiset<nat>, x: multiset<nat>, last: nat)
    requires Issued(packets + x, last)
    ensures Issued(packets, last)
  {
    forall n | n in packets
      ensures packets[n] == 1 && n <= last
    {
      assert n in packets + x;
    }
  }

  lemma PacketStepReceive(s: System, a: Action)
    requires PacketInv(s) && Enabled(s, a) && a.ReceiveReply?
    ensures PacketInv(Next(s, a))
  {
    var t, r := Next(s, a), s.replies[0];
    ReceivedPackets(s, t);
    IssuedPart(Packets(t), ReplyLabels(r), s.p.prevPacketLabel);
    ReceiveCounts(s.p, r);
  }

  lemma ReceiveCounts(p: Producer, r: Reply)
    requires r.PacketReply? ==> p.packetsOutstanding > 0
    ensures Receive(p, r).packetsOutstanding == p.packetsOutstanding - (if r.PacketReply? then 1 else 0)
    ensures Receive(p, r).prevPacketLabel == p.prevPacketLabel
  {
  }

  lemma ReceivedPackets(s: System, t: System)
    requires s.replies != [] && t.replies == s.replies[1..]
    requires t.requests == s.requests && t.held == s.held && t.returning == s.returning
    ensures var r := s.replies[0];
            && Packets(s) == Packets(t) + ReplyLabels(r)
            && |Packets(s)| == |Packets(t)| + (if r.PacketReply? then 1 else 0)
  {
    var x := ReplyLabels(s.replies[0]);
    Places(Union(s.requests, RequestLabels), s.held, multiset(s.returning), Union(t.replies, ReplyLabels), x);
  }

  lemma PacketStepProduce(s: System, a: Action)
    requires PacketInv(s) && Enabled(s, a) && a.Produce?
    ensures PacketInv(Next(s, a))
  {
    var t, n := Next(s, a), s.p.prevPacketLabel + 1;
    ProducedPackets(s, n, a.payload);
    PacketsAdded(s, t, n);
    PacketCounted(s, t, n);
  }

  lemma PacketCounted(s: System, t: System, n: nat)
    requires PacketInv(s) && n == s.p.prevPacketLabel + 1 == t.p.prevPacketLabel
    requires Packets(t) == Packets(s) + multiset{n} && |Packets(t)| == |Packets(s)| + 1
    requires t.p.packetsOutstanding == s.p.packetsOutstanding + 1 && t.c == s.c && t.held == s.held
    ensures PacketInv(t)
  {
    IssuedNext(Packets(s), s.p.prevPacketLabel);
  }

  lemma PacketsAdded(s: System, t: System, n: nat)
    requires t.replies == s.replies && t.held == s.held && t.returning == s.returning
    requires Union(t.requests, RequestLabels) == Union(s.requests, RequestLabels) + multiset{n}
    ensures Packets(t) == Packets(s) + multiset{n} && |Packets(t)| == |Packets(s)| + 1
  {
    Places(Union(s.requests, RequestLabels), s.held, multiset(s.returning), Union(s.replies, ReplyLabels), multiset{n});
  }

  lemma ProducedPackets(s: System, n: nat, payload: Payload)
    ensures Union(s.requests + (ChangeRequests(s.updates) + [SupplyPacket(n, payload)]), RequestLabels)
            == Union(s.requests, RequestLabels) + multiset{n}
  {
    ChangesWeighNothing(s.updates);
    var q, r := ChangeRequests(s.updates), SupplyPacket(n, payload);
    UnionOfAppend(q, r, RequestLabels);
    UnionOfConcat(s.requests, q + [r], RequestLabels);
  }

  lemma IssuedNext(packets: multiset<nat>, last: nat)
    requires Issued(packets, last)
    ensures Issued(packets + multiset{last + 1}, last + 1)
  {
    assert last + 1 !in packets;
  }

  lemma PacketStepStartReturn(s: System, a: Action)
    requires PacketInv(s) && Enabled(s, a) && a.StartReturn?
    ensures PacketInv(Next(s, a))
  {
    var t := Next(s, a);
    assert s.held == t.held + multiset{a.number};
    assert multiset(t.returning) == multiset(s.returning) + multiset{a.number};
    assert Packets(t) == Packets(s);
  }

  lemma PacketStepFinishReturn(s: System, a: Action)
    requires PacketInv(s) && Enabled(s, a) && a.FinishReturn?
    ensures PacketInv(Next(s, a))
  {
    var t, last := Next(s, a), |s.returning| - 1;
    var n := s.returning[last];
    assert s.returning == t.returning + [n];
    var r := EndReturn(s.c, n).1[0];
    assert EndReturn(s.c, n).1 == [r];
    UnionOfAppend(s.replies, r, ReplyLabels);
    assert Packets(t) == Packets(s);
  }

  lemma DemandReplyLabels(q: seq<Reply>, d: Demand)
    ensures Union(q + [DemandReply(d)], ReplyLabels) == Union(q, ReplyLabels)
    ensures Union(q + [], ReplyLabels) == Union(q, ReplyLabels)
  {
    UnionOfAppend(q, DemandReply(d), ReplyLabels);
    assert q + [] == q;
  }

  /** A step that leaves the packets and both counts alone. */
  lemma PacketsUntouched(s: System, t: System)
    requires PacketInv(s) && t.requests == s.requests && t.held == s.held && t.returning == s.returning
    requires Union(t.replies, ReplyLabels) == Union(s.replies, ReplyLabels)
    requires t.p == s.p && t.c.packetsOutstanding == s.c.packetsOutstanding
    ensures PacketInv(t)
  {
    assert Packets(t) == Packets(s);
  }

  lemma PacketStepConsumer(s: System, a: Action)
    requires PacketInv(s) && Enabled(s, a)
    requires a.ChangeDemand? || a.FinishFlush? || a.UpdateBuffers?
    ensures PacketInv(Next(s, a))
  {
    var t := Next(s, a);
    if a.FinishFlush? {
      UnionOfAppend(s.replies, FlushReply, ReplyLabels);
    } else if a.ChangeDemand? {
      DemandReplyLabels(s.replies, SetDemand(s.c, a.demand).0.demand);
      assert SetDemand(s.c, a.demand).0.packetsOutstanding == s.c.packetsOutstanding;
    }
    PacketsUntouched(s, t);
  }

  lemma PacketStepHandle(s: System, a: Action)
    requires PullInv(s) && PacketInv(s) && BufferInv(s) && Enabled(s, a) && a.ReceiveRequest?
    ensures PacketInv(Next(s, a))
  {
    HeadDeliverable(s);
    if s.requests[0].PullDemandUpdate? {
      PacketStepPull(s);
    } else {
      HandledPackets(s);
    }
  }

  lemma PacketStepPull(s: System)
    requires PullInv(s) && PacketInv(s) && s.requests != [] && s.requests[0].PullDemandUpdate?
    ensures PacketInv(Handle(s))
  {
    PullAtConsumer(s);
    AcceptPullSends(s.c);
    DemandReplyLabels(s.replies, s.c.demand);
    assert Packets(Handle(s)) == Packets(s);
  }

  lemma HandledPackets(s: System)
    requires s.requests != [] && !s.requests[0].PullDemandUpdate?
    requires s.requests[0].SupplyPacket? ==> Validate(s.remote, s.requests[0].payload)
    ensures Packets(Handle(s)) == Packets(s)
  {
    var x, rest := RequestLabels(s.requests[0]), Union(s.requests[1..], RequestLabels);
    Places(rest, s.held, multiset(s.returning), Union(s.replies, ReplyLabels), x);
    assert Union(s.requests, RequestLabels) == x + rest;
  }

  /** The first request can be handled without failure, and the rest after it. */
  lemma HeadDeliverable(s: System)
    requires BufferInv(s) && s.requests != []
    ensures match s.requests[0]
            case ChangeBuffer(u) => Applicable(s.remote, u)
            case SupplyPacket(_, payload) => Validate(s.remote, payload)
            case _ => true
    ensures BufferInv(Handle(s))
  {
    var changes := ChangeRequests(s.updates);
    assert (s.requests + changes)[1..] == s.requests[1..] + changes;
  }

  lemma BufferStepProduce(s: System, a: Action)
    requires BufferInv(s) && Enabled(s, a) && a.Produce?
    ensures BufferInv(Next(s, a))
  {
    var q, r := s.requests + ChangeRequests(s.updates), SupplyPacket(s.p.prevPacketLabel + 1, a.payload);
    DeliverableConcat(s.remote, q, [r]);
    assert [r][1..] == [];
    var t := Next(s, a);
    assert t.requests == q + [r] && t.requests + [] == t.requests;
  }

  lemma BufferStepUpdate(s: System, a: Action)
    requires BufferInv(s) && Enabled(s, a) && a.UpdateBuffers?
    ensures BufferInv(Next(s, a))
  {
    var pending, r := s.requests + ChangeRequests(s.updates), ChangeBuffer(a.update);
    ChangeRequestsAppend(s.updates, a.update);
    DeliverableConcat(s.remote, pending, [r]);
    assert [r][1..] == [];
    assert Next(s, a).requests + ChangeRequests(Next(s, a).updates) == pending + [r];
  }

  /** A request that neither changes buffers nor supplies a packet fits in before the queued changes. */
  lemma BufferStepSend(s: System, r: Request)
    requires BufferInv(s) && (r.PullDemandUpdate? || r.Flush?)
    ensures BufferInv(s.(requests := s.requests + [r]))
  {
    var changes := ChangeRequests(s.updates);
    DeliverableConcat(s.remote, s.requests, changes);
    DeliverableConcat(s.remote, s.requests + [r], changes);
    DeliverableConcat(s.remote, s.requests, [r]);
    assert [r][1..] == [];
  }

  lemma StepKeeps(s: System, a: Action)
    requires Inv(s) && Enabled(s, a) && !Overlaps(s, a)
    ensures Inv(Next(s, a))
  {
    match a
    case Produce(_, _, _) =>
      PullStepProduce(s, a);
      FlushStepProduce(s, a);
      DemandStepProduce(s, a);
      PacketStepProduce(s, a);
      BufferStepProduce(s, a);
    case ReceiveRequest =>
      PullStepHandle(s, a);
      FlushStepHandle(s, a);
      DemandStepHandle(s, a);
      PacketStepHandle(s, a);
      HeadDeliverable(s);
    case UpdateBuffers(_) =>
      StepConsumer(s, a);
      PacketStepConsumer(s, a);
      BufferStepUpdate(s, a);
    case ChangeDemand(_) =>
      StepConsumer(s, a);
      PacketStepConsumer(s, a);
    case FinishFlush =>
      StepConsumer(s, a);
      PacketStepConsumer(s, a);
    case StartReturn(_) =>
      StepConsumer(s, a);
      PacketStepStartReturn(s, a);
    case FinishReturn =>
      StepConsumer(s, a);
      PacketStepFinishReturn(s, a);
    case ReceiveReply =>
      StepProducer(s, a);
      PacketStepReceive(s, a);
    case _ =>
      StepProducer(s, a);
      PacketStepProducer(s, a);
      BufferStepSend(s, if a.StartFlush? then Flush else PullDemandUpdate);
  }

  lemma StepConsumer(s: System, a: Action)
    requires Inv(s) && Enabled(s, a)
    requires a.ChangeDemand? || a.StartReturn? || a.FinishReturn? || a.FinishFlush? || a.UpdateBuffers?
    ensures PullInv(Next(s, a)) && FlushInv(Next(s, a)) && DemandInv(Next(s, a))
  {
    PullStepConsumer(s, a);
    FlushStepConsumer(s, a);
    DemandStepConsumer(s, a);
  }

  lemma StepProducer(s: System, a: Action)
    requires Inv(s) && Enabled(s, a) && !Overlaps(s, a)
    requires a.Connect? || a.StartFlush? || a.PullAgain? || a.ReceiveReply?
    ensures PullInv(Next(s, a)) && FlushInv(Next(s, a)) && DemandInv(Next(s, a))
  {
    PullStepProducer(s, a);
    FlushStepProducer(s, a);
    DemandStepProducer(s, a);
  }

  // ----- over whole runs

  lemma {:induction false} RunKeeps(s: System, actions: seq<Action>, t: System)
    requires Inv(s) && Runs(false, s, actions, t)
    ensures Inv(t)
    decreases |actions|
  {
    if actions != [] {
      StepKeeps(s, actions[0]);
      RunKeeps(Next(s, actions[0]), actions[1..], t);
    }
  }

  /** Connected, with nothing under way and no flush or packet return in progress. */
  predicate Quiescent(s: System) {
    && s.p.connected && !s.p.pulling
    && s.requests == [] && s.replies == []
    && s.c.flushCallbacks == 0 && s.returning == []
  }

  /** The two ends agree, and the consumer can announce its next change at once. */
  predicate Agree(s: System) {
    && s.p.demand == s.c.demand
    && !s.p.flushInProgress && !s.c.flushPending && !s.c.updateRequired && s.c.callback
    && s.p.packetsOutstanding == s.c.packetsOutstanding
  }

  lemma QuiescentAgrees(s: System)
    requires Inv(s) && Quiescent(s)
    ensures Agree(s)
  {
    assert Packets(s) == s.held;
  }

  /**
   * On every run without overlapping flushes, each packet the producer counts is on its way, with the
   * consumer, being returned or on its way back; there is one pull once connected; and no buffer
   * change or packet has failed.
   */
  lemma Conserved(actions: seq<Action>, t: System)
    requires Runs(false, INITIAL, actions, t)
    ensures t.p.packetsOutstanding
            == |Union(t.requests, RequestLabels)| + t.c.packetsOutstanding
               + |t.returning| + |Union(t.replies, ReplyLabels)|
    ensures PullTokens(t) == Bit(t.p.connected)
    ensures !t.failed
  {
    InitialInv();
    RunKeeps(INITIAL, actions, t);
  }

  /** A demand that changes while a packet is being returned waits for that packet's reply and is told by it. */
  lemma ChangeRidesOnReturn(c: Consumer, d: Demand, number: nat)
    requires c.returningPacket && !c.flushPending && d != c.demand
    ensures SetDemand(c, d).1 == [] && EndReturn(SetDemand(c, d).0, number).1 == [PacketReply(number, Some(d))]
    ensures !EndReturn(SetDemand(c, d).0, number).0.updateRequired
  {
  }

  // ----- what the consumer asks for and the producer has produced

  /**
   * The demand last asked for: what the last SetDemand said, none once a flush has arrived. While that
   * flush is pending, the consumer does not listen.
   */
  function NowAsked(s: System, a: Action, asked: Demand): Demand
    requires Enabled(s, a)
  {
    match a
    case ChangeDemand(d) => if s.c.flushCallbacks > 0 then asked else d
    case ReceiveRequest => if s.requests[0].Flush? then NO_DEMAND else asked
    case _ => asked
  }

  function AskedFor(s: System, actions: seq<Action>, asked: Demand): Demand
    decreases |actions|
  {
    if actions == [] || !Enabled(s, actions[0]) then asked
    else AskedFor(Next(s, actions[0]), actions[1..], NowAsked(s, actions[0], asked))
  }

  lemma StepAsked(s: System, a: Action)
    requires FlushInv(s) && Enabled(s, a)
    ensures Next(s, a).c.demand == NowAsked(s, a, s.c.demand)
  {
  }

  lemma {:induction false} DemandFollows(s: System, actions: seq<Action>, t: System)
    requires Inv(s) && Runs(false, s, actions, t)
    ensures t.c.demand == AskedFor(s, actions, s.c.demand)
    decreases |actions|
  {
    if actions != [] {
      StepAsked(s, actions[0]);
      StepKeeps(s, actions[0]);
      DemandFollows(Next(s, actions[0]), actions[1..], t);
    }
  }

  /**
   * On every run without overlapping flushes, the consumer's demand is what was last asked for, and at
   * rest it is the producer's.
   */
  lemma DemandAsked(actions: seq<Action>, t: System)
    requires Runs(false, INITIAL, actions, t)
    ensures t.c.demand == AskedFor(INITIAL, actions, NO_DEMAND)
    ensures Quiescent(t) ==> t.p.demand == AskedFor(INITIAL, actions, NO_DEMAND)
  {
    InitialInv();
    DemandFollows(INITIAL, actions, t);
    RunKeeps(INITIAL, actions, t);
    if Quiescent(t) {
      QuiescentAgrees(t);
    }
  }

  /** What the client of the producer sends down the stream. */
  datatype Item = PacketItem(payload: Payload) | FlushItem

  /** The packets and flushes among the requests. */
  function Items(q: seq<Request>): seq<Item> {
    if q == [] then []
    else if q[0].SupplyPacket? then [PacketItem(q[0].payload)] + Items(q[1..])
    else if q[0].Flush? then [FlushItem] + Items(q[1..])
    else Items(q[1..])
  }

  lemma {:induction false} ItemsConcat(q: seq<Request>, r: seq<Request>)
    ensures Items(q + r) == Items(q) + Items(r)
  {
    if q == [] {
      assert q + r == r;
    } else {
      assert (q + r)[1..] == q[1..] + r;
      ItemsConcat(q[1..], r);
    }
  }

  lemma {:induction false} ChangesAreNoItems(updates: seq<BufferUpdate>)
    ensures Items(ChangeRequests(updates)) == []
  {
    if updates != [] {
      ChangesAreNoItems(updates[1..]);
      assert ChangeRequests(updates)[1..] == ChangeRequests(updates[1..]);
    }
  }

  function NowSent(a: Action): seq<Item> {
    match a
    case Produce(payload, _, _) => [PacketItem(payload)]
    case StartFlush => [FlushItem]
    case _ => []
  }

  /** What has been sent down the stream. */
  function Sent(actions: seq<Action>): seq<Item> {
    if actions == [] then [] else NowSent(actions[0]) + Sent(actions[1..])
  }

  function NowArrived(s: System, a: Action): seq<Item>
    requires Enabled(s, a)
  {
    if a.ReceiveRequest? then Items([s.requests[0]]) else []
  }

  /** What the consumer has been handed. */
  function Arrived(s: System, actions: seq<Action>): seq<Item>
    decreases |actions|
  {
    if actions == [] || !Enabled(s, actions[0]) then []
    else NowArrived(s, actions[0]) + Arrived(Next(s, actions[0]), actions[1..])
  }

  lemma StepArrives(s: System, a: Action)
    requires PullInv(s) && Enabled(s, a)
    ensures Items(s.requests) + NowSent(a) == NowArrived(s, a) + Items(Next(s, a).requests)
  {
    match a
    case Connect => ItemsConcat(s.requests, [PullDemandUpdate]);
    case StartFlush => ItemsConcat(s.requests, [Flush]);
    case PullAgain => ItemsConcat(s.requests, [PullDemandUpdate]);
    case Produce(payload, pts, eos) =>
      var q, r := ChangeRequests(s.updates), SupplyPacket(s.p.prevPacketLabel + 1, payload);
      ItemsConcat(s.requests, q + [r]);
      ItemsConcat(q, [r]);
      ChangesAreNoItems(s.updates);
    case ReceiveRequest => HandledOne(s);
    case _ =>
  }

  lemma HandledOne(s: System)
    requires s.requests != []
    ensures Items(s.requests) == Items([s.requests[0]]) + Items(Handle(s).requests)
  {
    assert s.requests == [s.requests[0]] + s.requests[1..];
    ItemsConcat([s.requests[0]], s.requests[1..]);
  }

  lemma {:induction false} ItemsArrive(s: System, actions: seq<Action>, t: System)
    requires Inv(s) && Runs(false, s, actions, t)
    ensures Items(s.requests) + Sent(actions) == Arrived(s, actions) + Items(t.requests)
    decreases |actions|
  {
    if actions != [] {
      var a := actions[0];
      StepArrives(s, a);
      StepKeeps(s, a);
      ItemsArrive(Next(s, a), actions[1..], t);
      Rearranged(Items(s.requests), NowSent(a), Sent(actions[1..]), NowArrived(s, a), Items(Next(s, a).requests),
                 Arrived(Next(s, a), actions[1..]), Items(t.requests));
    }
  }

  lemma Rearranged(a: seq<Item>, b: seq<Item>, c: seq<Item>, d: seq<Item>, e: seq<Item>, f: seq<Item>, g: seq<Item>)
    requires a + b == d + e && e + c == f + g
    ensures a + (b + c) == d + f + g
  {
    assert a + (b + c) == a + b + c == d + (e + c) == d + (f + g);
  }

  /** The consumer is handed the packets, with the payloads they were produced with, and the flushes in order. */
  lemma ArrivesInOrder(actions: seq<Action>, t: System)
    requires Runs(false, INITIAL, actions, t)
    ensures Sent(actions) == Arrived(INITIAL, actions) + Items(t.requests)
    ensures Quiescent(t) ==> Arrived(INITIAL, actions) == Sent(actions)
  {
    InitialInv();
    ItemsArrive(INITIAL, actions, t);
    NoneLeft(Sent(actions), Arrived(INITIAL, actions), INITIAL.requests, t.requests);
  }

  lemma NoneLeft(sent: seq<Item>, arrived: seq<Item>, before: seq<Request>, after: seq<Request>)
    requires before == [] && Items(before) + sent == arrived + Items(after)
    ensures sent == arrived + Items(after) && (after == [] ==> arrived == sent)
  {
    assert Items(before) == [] && [] + sent == sent;
    assert arrived + [] == arrived;
  }

  /** The time of the packet produced last. */
  function LastPts(actions: seq<Action>): int {
    if actions == [] then -0x8000_0000_0000_0000
    else
      var last := |actions| - 1;
      if actions[last].Produce? then actions[last].pts else LastPts(actions[..last])
  }

  /** Whether the packet produced last ended the stream and no flush was started after it. */
  predicate StreamEnded(actions: seq<Action>) {
    actions != [] &&
    var last := |actions| - 1;
    match actions[last]
    case Produce(_, _, endOfStream) => endOfStream
    case StartFlush => false
    case _ => StreamEnded(actions[..last])
  }

  lemma {:induction false} RunSnoc(overlapAllowed: bool, s: System, actions: seq<Action>, t: System) returns (m: System)
    requires actions != [] && Runs(overlapAllowed, s, actions, t)
    ensures Runs(overlapAllowed, s, actions[..|actions| - 1], m)
    ensures Enabled(m, actions[|actions| - 1]) && Next(m, actions[|actions| - 1]) == t
    decreases |actions|
  {
    if |actions| == 1 {
      m := s;
    } else {
      m := RunSnoc(overlapAllowed, Next(s, actions[0]), actions[1..], t);
      assert actions[1..][..|actions| - 2] == actions[..|actions| - 1][1..];
    }
  }

  /** The producer knows the time of its last packet, and whether the stream has ended since the last flush. */
  lemma {:induction false} ProducedLast(overlapAllowed: bool, actions: seq<Action>, t: System)
    requires Runs(overlapAllowed, INITIAL, actions, t)
    ensures t.p.ptsLastProduced == LastPts(actions)
    ensures t.p.endOfStream <==> StreamEnded(actions)
    decreases |actions|
  {
    if actions != [] {
      var m := RunSnoc(overlapAllowed, INITIAL, actions, t);
      ProducedLast(overlapAllowed, actions[..|actions| - 1], m);
    }
  }

  /**
   * At rest the producer, asked about a packet when it has more in preparation, goes by the demand that the
   * consumer's client asked for last, the packets the consumer has and those in preparation, and the
   * packets that the run produced.
   */
  lemma ProducesAsAsked(actions: seq<Action>, t: System, additional: nat)
    requires Runs(false, INITIAL, actions, t) && Quiescent(t)
    ensures var asked := AskedFor(INITIAL, actions, NO_DEMAND);
            ShouldProducePacket(t.p, additional) <==>
              && !StreamEnded(actions)
              && (t.c.packetsOutstanding + additional < asked.minPacketsOutstanding
                  || (asked.minPts != NO_TIMESTAMP && LastPts(actions) < asked.minPts))
  {
    InitialInv();
    RunKeeps(INITIAL, actions, t);
    QuiescentAgrees(t);
    DemandAsked(actions, t);
    ProducedLast(false, actions, t);
  }

  /** A packet reply always finds a packet to count off. */
  predicate CanReceive(s: System) {
    s.replies != [] && s.replies[0].PacketReply? ==> s.p.packetsOutstanding > 0
  }

  lemma GuardsHold(s: System)
    requires PacketInv(s)
    ensures CanReceive(s)
    ensures s.held != multiset{} ==> s.c.packetsOutstanding > 0
  {
    if s.replies != [] && s.replies[0].PacketReply? {
      ReceivedPackets(s, s.(replies := s.replies[1..]));
    }
  }

  // ----- settling: whatever is under way arrives, and then the ends agree

  function RequestRank(r: Request): nat {
    match r
    case PullDemandUpdate => 1
    case ChangeBuffer(_) => 1
    case SupplyPacket(_, _) => 1
    case Flush => 3
  }

  function ReplyRank(r: Reply): nat {
    match r
    case DemandReply(_) => 3
    case PacketReply(_, _) => 1
    case FlushReply => 1
  }

  /** Messages under way and answers still owed, weighted by what each can still cause. */
  function Rank(s: System): nat {
    Sum(s.requests, RequestRank) + Sum(s.replies, ReplyRank) + 2 * |s.returning| + 2 * s.c.flushCallbacks
    + 2 * Bit(s.p.pulling) + 3 * Bit(s.c.updateRequired)
  }

  /** A step that either end owes: handling a message, or finishing what it began. */
  predicate Owed(s: System, a: Action) {
    Enabled(s, a) && (a.PullAgain? || a.ReceiveReply? || a.FinishReturn? || a.ReceiveRequest? || a.FinishFlush?)
  }

  /** t is reached from s by steps owed, in any order. */
  ghost predicate Settles(s: System, actions: seq<Action>, t: System)
    decreases |actions|
  {
    if actions == [] then s == t
    else Owed(s, actions[0]) && Settles(Next(s, actions[0]), actions[1..], t)
  }

  /** Nothing is owed exactly at rest. */
  lemma NothingOwed(s: System)
    requires CanReceive(s) && s.p.connected
    ensures (forall a :: !Owed(s, a)) <==> Quiescent(s)
  {
    if forall a :: !Owed(s, a) {
      assert !Owed(s, PullAgain) && !Owed(s, ReceiveReply) && !Owed(s, FinishReturn);
      assert !Owed(s, ReceiveRequest) && !Owed(s, FinishFlush);
    }
  }

  lemma OwedLowersRank(s: System, a: Action)
    requires PullInv(s) && Owed(s, a)
    ensures Rank(Next(s, a)) < Rank(s)
  {
    match a
    case PullAgain => PullAgainLowersRank(s);
    case ReceiveReply => ReceiveLowersRank(s);
    case FinishReturn => FinishReturnLowersRank(s);
    case ReceiveRequest => HandleLowersRank(s);
    case FinishFlush => FinishFlushLowersRank(s);
  }

  lemma PullAgainLowersRank(s: System)
    requires s.p.pulling
    ensures Rank(Next(s, PullAgain)) < Rank(s)
  {
    SumOfAppend(s.requests, PullDemandUpdate, RequestRank);
  }

  lemma FinishFlushLowersRank(s: System)
    requires s.c.flushCallbacks > 0
    ensures Rank(Next(s, FinishFlush)) < Rank(s)
  {
    SumOfAppend(s.replies, FlushReply, ReplyRank);
  }

  lemma ReceiveLowersRank(s: System)
    requires Enabled(s, ReceiveReply)
    ensures Rank(Next(s, ReceiveReply)) < Rank(s)
  {
  }

  lemma FinishReturnLowersRank(s: System)
    requires s.returning != []
    ensures Rank(Next(s, FinishReturn)) < Rank(s)
  {
    var r := EndReturn(s.c, s.returning[|s.returning| - 1]).1[0];
    assert EndReturn(s.c, s.returning[|s.returning| - 1]).1 == [r];
    SumOfAppend(s.replies, r, ReplyRank);
  }

  lemma HandleLowersRank(s: System)
    requires PullInv(s) && s.requests != []
    ensures Rank(Handle(s)) < Rank(s)
  {
    if s.requests[0].PullDemandUpdate? {
      HandledPull(s);
      HandledPullRank(s);
    } else {
      HandledOtherRank(s);
    }
  }

  lemma HandledPullRank(s: System)
    requires s.requests != [] && s.requests[0].PullDemandUpdate?
    ensures var s' := s.(requests := s.requests[1..]);
            && Rank(s'.(c := s.c.(callback := true))) < Rank(s)
            && (s.c.updateRequired ==>
                  Rank(s'.(c := s.c.(updateRequired := false, callback := false),
                          replies := s.replies + [DemandReply(s.c.demand)])) < Rank(s))
  {
    SumOfAppend(s.replies, DemandReply(s.c.demand), ReplyRank);
  }

  lemma HandledOtherRank(s: System)
    requires s.requests != [] && !s.requests[0].PullDemandUpdate?
    ensures Rank(Handle(s)) < Rank(s)
  {
    var t := Handle(s);
    assert Sum(s.requests, RequestRank) == RequestRank(s.requests[0]) + Sum(t.requests, RequestRank);
    assert 2 * t.c.flushCallbacks < RequestRank(s.requests[0]) + 2 * s.c.flushCallbacks;
    assert t.replies == s.replies && t.returning == s.returning && t.p == s.p;
    assert t.c.updateRequired == s.c.updateRequired;
    RankFalls(s, t);
  }

  lemma RankFalls(s: System, t: System)
    requires t.replies == s.replies && t.returning == s.returning
    requires t.p == s.p && t.c.updateRequired == s.c.updateRequired
    requires Sum(t.requests, RequestRank) + 2 * t.c.flushCallbacks <
             Sum(s.requests, RequestRank) + 2 * s.c.flushCallbacks
    ensures Rank(t) < Rank(s)
  {
  }

  /** Handling a pull sends the required update, or keeps the pull. */
  lemma HandledPull(s: System)
    requires PullInv(s) && s.requests != [] && s.requests[0].PullDemandUpdate?
    ensures var s' := s.(requests := s.requests[1..]);
            Handle(s) == if s.c.updateRequired && !s.c.returningPacket
                         then s'.(c := s.c.(updateRequired := false, callback := false),
                                 replies := s.replies + [DemandReply(s.c.demand)])
                         else s'.(c := s.c.(callback := true))
  {
    PullAtConsumer(s);
    AcceptPullSends(s.c);
    assert s.replies + [] == s.replies;
  }

  /** Whether the consumer has yet to see a flush. */
  predicate FlushAhead(s: System) {
    Sum(s.requests, FlushWeight) > 0
  }

  /**
   * From any reachable state, with no further calls from outside, the system comes to rest in whatever
   * order messages are handled, within as many steps as the rank says, and when it is at rest the ends
   * agree; the demand they agree on is the consumer's, unless a flush is still ahead of it,
   * which withdraws all demand.
   */
  lemma {:induction false} SettlingAgrees(s: System, actions: seq<Action>, t: System)
    requires Inv(s) && s.p.connected && Settles(s, actions, t)
    ensures Inv(t) && |actions| <= Rank(s)
    ensures (forall a :: !Owed(t, a)) <==> Quiescent(t)
    ensures Quiescent(t) ==> Agree(t) && t.p.demand == Outcome(s)
    decreases |actions|
  {
    if actions == [] {
      GuardsHold(s);
      NothingOwed(s);
      if Quiescent(s) {
        QuiescentAgrees(s);
      }
    } else {
      var a := actions[0];
      OwedLowersRank(s, a);
      StepKeeps(s, a);
      OwedKeepsDemand(s, a);
      SettlingAgrees(Next(s, a), actions[1..], t);
    }
  }

  /** The demand the ends will agree on. */
  function Outcome(s: System): Demand {
    if FlushAhead(s) then NO_DEMAND else s.c.demand
  }

  lemma OwedKeepsDemand(s: System, a: Action)
    requires PullInv(s) && Owed(s, a)
    ensures Outcome(Next(s, a)) == Outcome(s)
    ensures Next(s, a).p.connected == s.p.connected
  {
    match a
    case PullAgain => SumOfAppend(s.requests, PullDemandUpdate, FlushWeight);
    case ReceiveRequest => HandleKeepsOutcome(s);
    case _ =>
  }

  lemma HandleKeepsOutcome(s: System)
    requires PullInv(s) && s.requests != []
    ensures Outcome(Handle(s)) == Outcome(s)
    ensures Handle(s).p == s.p
  {
    if s.requests[0].PullDemandUpdate? {
      HandledPull(s);
    }
  }

  // ----- overlapping flushes

  function OverlapProducer(demand: Demand, flushing: bool, pulling: bool): Producer {
    INITIAL_PRODUCER.(connected := true, demand := demand, flushInProgress := flushing, pulling := pulling)
  }

  function OverlapConsumer(demand: Demand, callback: bool, flushing: bool): Consumer {
    INITIAL_CONSUMER.(demand := demand, callback := callback, flushPending := flushing, flushCallbacks := Bit(flushing))
  }

  function At(p: Producer, c: Consumer, requests: seq<Request>, replies: seq<Reply>): System {
    INITIAL.(p := p, c := c, requests := requests, replies := replies)
  }

  lemma Then(s: System, a: Action, t: System, actions: seq<Action>, end: System)
    requires Enabled(s, a) && Next(s, a) == t && Runs(true, t, actions, end)
    ensures Runs(true, s, [a] + actions, end)
  {
    assert ([a] + actions)[1..] == actions;
  }

  const ONE_PACKET: Demand := Demand(1, NO_TIMESTAMP)

  /** From the first demand that the consumer sends between the two flushes. */
  lemma OverlapEnd(s: System) returns (actions: seq<Action>, t: System)
    requires s == At(OverlapProducer(NO_DEMAND, true, false), OverlapConsumer(NO_DEMAND, false, true), [],
                     [FlushReply, DemandReply(ONE_PACKET)])
    ensures Runs(true, s, actions, t) && Quiescent(t) && t.p.demand == ONE_PACKET && t.c.demand == NO_DEMAND
  {
    var busy, idle := OverlapConsumer(NO_DEMAND, false, true), OverlapConsumer(NO_DEMAND, false, false);
    var s1 := At(OverlapProducer(NO_DEMAND, false, false), busy, [], [DemandReply(ONE_PACKET)]);
    var s2 := At(OverlapProducer(ONE_PACKET, false, true), busy, [], []);
    var s3 := At(OverlapProducer(ONE_PACKET, false, false), busy, [PullDemandUpdate], []);
    var s4 := At(OverlapProducer(ONE_PACKET, false, false), idle, [PullDemandUpdate], [FlushReply]);
    var s5 := At(OverlapProducer(ONE_PACKET, false, false), idle, [PullDemandUpdate], []);
    t := At(OverlapProducer(ONE_PACKET, false, false), OverlapConsumer(NO_DEMAND, true, false), [], []);
    Then(s5, ReceiveRequest, t, [], t);
    Then(s4, ReceiveReply, s5, [ReceiveRequest], t);
    Then(s3, FinishFlush, s4, [ReceiveReply] + [ReceiveRequest], t);
    actions := [FinishFlush] + ([ReceiveReply] + [ReceiveRequest]);
    Then(s2, PullAgain, s3, actions, t);
    Then(s1, ReceiveReply, s2, [PullAgain] + actions, t);
    Then(s, ReceiveReply, s1, [ReceiveReply] + ([PullAgain] + actions), t);
    actions := [ReceiveReply] + ([ReceiveReply] + ([PullAgain] + actions));
  }

  /**
   * A producer that flushes again before the first flush is answered: the answer ends the
   * flush too early, and a demand sent between the two flushes is taken for current.
   */
  lemma OverlapDisagrees() returns (actions: seq<Action>, t: System)
    ensures Runs(true, INITIAL, actions, t) && Quiescent(t) && !Agree(t)
  {
    var flushing := OverlapProducer(NO_DEMAND, true, false);
    var waiting := OverlapConsumer(NO_DEMAND, true, false);
    var s1 := At(OverlapProducer(NO_DEMAND, false, false), INITIAL_CONSUMER, [PullDemandUpdate], []);
    var s2 := At(OverlapProducer(NO_DEMAND, false, false), waiting, [], []);
    var s3 := At(flushing, waiting, [Flush], []);
    var s4 := At(flushing, waiting, [Flush, Flush], []);
    actions, t := OverlapAnswered(s4);
    Then(s3, StartFlush, s4, actions, t);
    actions := [StartFlush] + actions;
    Then(s2, StartFlush, s3, actions, t);
    actions := [StartFlush] + actions;
    Then(s1, ReceiveRequest, s2, actions, t);
    actions := [ReceiveRequest] + actions;
    Then(INITIAL, Connect, s1, actions, t);
    actions := [Connect] + actions;
  }

  /** The first of the two flushes is answered, and the demand changes before the second arrives. */
  lemma OverlapAnswered(s4: System) returns (actions: seq<Action>, t: System)
    requires s4 == At(OverlapProducer(NO_DEMAND, true, false),
                      OverlapConsumer(NO_DEMAND, true, false), [Flush, Flush], [])
    ensures Runs(true, s4, actions, t) && Quiescent(t) && !Agree(t)
  {
    var flushing := OverlapProducer(NO_DEMAND, true, false);
    var waiting := OverlapConsumer(NO_DEMAND, true, false);
    var s5 := At(flushing, OverlapConsumer(NO_DEMAND, true, true), [Flush], []);
    var s6 := At(flushing, waiting, [Flush], [FlushReply]);
    var s7 := At(flushing, OverlapConsumer(ONE_PACKET, false, false), [Flush], [FlushReply, DemandReply(ONE_PACKET)]);
    var s8 := At(flushing, OverlapConsumer(NO_DEMAND, false, true), [], [FlushReply, DemandReply(ONE_PACKET)]);
    actions, t := OverlapEnd(s8);
    Then(s7, ReceiveRequest, s8, actions, t);
    actions := [ReceiveRequest] + actions;
    Then(s6, ChangeDemand(ONE_PACKET), s7, actions, t);
    actions := [ChangeDemand(ONE_PACKET)] + actions;
    Then(s5, FinishFlush, s6, actions, t);
    actions := [FinishFlush] + actions;
    OverlapStart(s4, s5, actions, t);
    actions := [ReceiveRequest] + actions;
  }

  lemma OverlapStart(s: System, s': System, actions: seq<Action>, t: System)
    requires s == At(OverlapProducer(NO_DEMAND, true, false),
                     OverlapConsumer(NO_DEMAND, true, false), [Flush, Flush], [])
    requires s' == At(OverlapProducer(NO_DEMAND, true, false), OverlapConsumer(NO_DEMAND, true, true), [Flush], [])
    requires Runs(true, s', actions, t)
    ensures Runs(true, s, [ReceiveRequest] + actions, t)
  {
    Then(s, ReceiveRequest, s', actions, t);
  }

  /** The ends agree at rest on every run exactly if a flush is never started during another. */
  lemma AgreementIffNoOverlap(overlapAllowed: bool)
    ensures (forall actions, t :: Runs(overlapAllowed, INITIAL, actions, t) && Quiescent(t) ==> Agree(t))
            <==> !overlapAllowed
  {
    if overlapAllowed {
      var actions, t := OverlapDisagrees();
      assert exists actions, t :: Runs(overlapAllowed, INITIAL, actions, t) && Quiescent(t) && !Agree(t);
    } else {
      InitialInv();
      forall actions, t | Runs(false, INITIAL, actions, t) && Quiescent(t)
        ensures Agree(t)
      {
        RunKeeps(INITIAL, actions, t);
        QuiescentAgrees(t);
      }
    }
  }

}
