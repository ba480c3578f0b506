// The two ends of the packet transport: their messages, their states, and what
// each operation does to a state and sends.

module TransportSteps {
  import opened Options

  const NO_TIMESTAMP: int := 0x7fff_ffff_ffff_ffff

  datatype Demand = Demand(minPacketsOutstanding: nat, minPts: int)

  const NO_DEMAND: Demand := Demand(0, NO_TIMESTAMP)

  /** Where a packet's payload is: buffer, offset and size. */
  datatype Payload = Payload(buffer: nat, offset: nat, size: nat)

  /** A change to the set of shared buffers, from ids to sizes. */
  datatype BufferUpdate = Add(id: nat, size: nat) | Remove(id: nat)

  datatype Request =
    | PullDemandUpdate
    | ChangeBuffer(update: BufferUpdate)
    | SupplyPacket(number: nat, payload: Payload)
    | Flush

  datatype Reply =
    | DemandReply(demand: Demand)
    | PacketReply(number: nat, update: Option<Demand>)
    | FlushReply

  // ----- shared buffers

  predicate Applicable(buffers: map<nat, nat>, u: BufferUpdate) {
    match u
    case Add(id, _) => id !in buffers
    case Remove(id) => id in buffers
  }

  function Apply(buffers: map<nat, nat>, u: BufferUpdate): map<nat, nat> {
    match u
    case Add(id, size) => buffers[id := size]
    case Remove(id) => buffers - {id}
  }

  /** Whether the payload lies within a known buffer; empty payloads need none. */
  predicate Validate(buffers: map<nat, nat>, p: Payload) {
    p.size == 0 || (p.buffer in buffers && p.offset < buffers[p.buffer] && p.size <= buffers[p.buffer] - p.offset)
  }

  // ----- the producer

  /** pulling is set while a demand reply is being handled and the next pull is still to be sent. */
  datatype Producer = Producer(
    connected: bool,
    demand: Demand,
    flushInProgress: bool,
    packetsOutstanding: nat,
    ptsLastProduced: int,
    endOfStream: bool,
    prevPacketLabel: nat,
    pulling: bool)

  const INITIAL_PRODUCER: Producer :=
    Producer(false, NO_DEMAND, false, 0, -0x8000_0000_0000_0000, false, 0, false)

  /** Demand changes that arrive while a flush is in progress are ignored. */
  function UpdateDemand(p: Producer, demand: Demand): Producer {
    if p.flushInProgress then p else p.(demand := demand)
  }

  function Connected(p: Producer): (Producer, seq<Request>) {
    (p.(connected := true), [PullDemandUpdate])
  }

  function FlushConsumer(p: Producer): (Producer, seq<Request>) {
    (UpdateDemand(p.(endOfStream := false), NO_DEMAND).(flushInProgress := true), [Flush])
  }

  function ChangeRequests(updates: seq<BufferUpdate>): (q: seq<Request>)
    ensures |q| == |updates| && forall i :: 0 <= i < |q| ==> q[i] == ChangeBuffer(updates[i])
  {
    if updates == [] then [] else [ChangeBuffer(updates[0])] + ChangeRequests(updates[1..])
  }

  /** Sends the pending buffer updates, then the packet. */
  function ProducePacket(p: Producer, updates: seq<BufferUpdate>, payload: Payload, pts: int, endOfStream: bool)
    : (Producer, seq<Request>)
  {
    var number := p.prevPacketLabel + 1;
    (p.(packetsOutstanding := p.packetsOutstanding + 1, ptsLastProduced := pts, endOfStream := endOfStream,
        prevPacketLabel := number),
     ChangeRequests(updates) + [SupplyPacket(number, payload)])
  }

  predicate ShouldProducePacket(p: Producer, additional: nat) {
    && !p.endOfStream
    && (p.demand.minPacketsOutstanding > p.packetsOutstanding + additional
        || (p.demand.minPts != NO_TIMESTAMP && p.demand.minPts > p.ptsLastProduced))
  }

  function Pulled(p: Producer): (Producer, seq<Request>) {
    (p.(pulling := false), [PullDemandUpdate])
  }

  /** The producer's handler for a reply. A packet reply without an outstanding packet cannot be counted off. */
  function Receive(p: Producer, r: Reply): Producer
    requires r.PacketReply? ==> p.packetsOutstanding > 0
  {
    match r
    case DemandReply(d) => UpdateDemand(p, d).(pulling := true)
    case PacketReply(_, None) => p.(packetsOutstanding := p.packetsOutstanding - 1)
    case PacketReply(_, Some(d)) => UpdateDemand(p.(packetsOutstanding := p.packetsOutstanding - 1), d)
    case FlushReply => p.(flushInProgress := false)
  }

  // ----- the consumer

  /** callback is set while a PullDemandUpdate waits for its reply; flushCallbacks counts flushes to complete. */
  datatype Consumer = Consumer(
    demand: Demand,
    updateRequired: bool,
    returningPacket: bool,
    callback: bool,
    flushPending: bool,
    flushCallbacks: nat,
    packetsOutstanding: nat)

  const INITIAL_CONSUMER: Consumer := Consumer(NO_DEMAND, false, false, false, false, 0, 0)

  function MaybeCompletePull(c: Consumer): (Consumer, seq<Reply>) {
    if !c.updateRequired || c.returningPacket || !c.callback then (c, [])
    else (c.(updateRequired := false, callback := false), [DemandReply(c.demand)])
  }

  function SetDemand(c: Consumer, demand: Demand): (Consumer, seq<Reply>) {
    if c.flushPending || demand == c.demand then (c, [])
    else MaybeCompletePull(c.(demand := demand, updateRequired := true))
  }

  function AcceptPull(c: Consumer): (Consumer, seq<Reply>) {
    var early := if c.callback then [DemandReply(c.demand)] else [];
    var (c', late) := MaybeCompletePull(c.(callback := true));
    (c', early + late)
  }

  function AcceptPacket(c: Consumer): Consumer {
    c.(packetsOutstanding := c.packetsOutstanding + 1)
  }

  function BeginReturn(c: Consumer): Consumer
    requires c.packetsOutstanding > 0
  {
    c.(packetsOutstanding := c.packetsOutstanding - 1, returningPacket := true)
  }

  function EndReturn(c: Consumer, number: nat): (Consumer, seq<Reply>) {
    if c.updateRequired
    then (c.(returningPacket := false, updateRequired := false), [PacketReply(number, Some(c.demand))])
    else (c.(returningPacket := false), [PacketReply(number, None)])
  }

  function AcceptFlush(c: Consumer): Consumer {
    c.(demand := NO_DEMAND, flushPending := true, flushCallbacks := c.flushCallbacks + 1)
  }

  function CompleteFlush(c: Consumer): (Consumer, seq<Reply>)
    requires c.flushCallbacks > 0
  {
    (c.(flushPending := false, flushCallbacks := c.flushCallbacks - 1), [FlushReply])
  }

}
