// The producer and consumer classes, proved to take the steps of TransportSteps.

module TransportEnds {
  import opened Options
  import opened TransportSteps

  class MediaPacketProducerBase {
    var bound: bool
    var demand: Demand
    var flushInProgress: bool
    var packetsOutstanding: nat
    var ptsLastProduced: int
    var endOfStream: bool
    var prevPacketLabel: nat

    /** The allocator's queue of buffer updates that the consumer has not been told of. */
    var bufferUpdates: seq<BufferUpdate>

    /** The requests sent to the consumer. */
    var sent: seq<Request>

    ghost function State(): Producer
      reads this
    {
      Producer(bound, demand, flushInProgress, packetsOutstanding, ptsLastProduced, endOfStream, prevPacketLabel, false)
    }

    constructor ()
      ensures State() == INITIAL_PRODUCER && sent == [] && bufferUpdates == []
    {
      bound, demand, flushInProgress, packetsOutstanding := false, NO_DEMAND, false, 0;
      ptsLastProduced, endOfStream, prevPacketLabel := -0x8000_0000_0000_0000, false, 0;
      bufferUpdates, sent := [], [];
    }

    method Connect()
      requires !bound
      modifies this
      ensures (State(), sent) == (Connected(old(State())).0, old(sent) + Connected(old(State())).1)
      ensures bufferUpdates == old(bufferUpdates)
    {
      bound := true;
      HandleDemandUpdate(None);
    }

    /** Tells whether the demand changed, in which case the subclass is notified. */
    method UpdateDemand(newDemand: Demand) returns (updated: bool)
      modifies `demand
      ensures State() == TransportSteps.UpdateDemand(old(State()), newDemand)
      ensures updated <==> demand != old(demand)
    {
      if flushInProgress {
        // The consumer may have sent this before it knew we were flushing.
        return false;
      }
      updated := false;
      if demand.minPacketsOutstanding != newDemand.minPacketsOutstanding || demand.minPts != newDemand.minPts {
        demand := newDemand;
        updated := true;
      }
    }

    /** Handles a demand reply, or starts the pulling when called without one. */
    method HandleDemandUpdate(newDemand: Option<Demand>)
      modifies `demand, `sent
      ensures State() ==
                if newDemand.Some? then TransportSteps.UpdateDemand(old(State()), newDemand.value) else old(State())
      ensures newDemand.Some? ==> State() == Pulled(Receive(old(State()), DemandReply(newDemand.value))).0
      ensures sent == if bound then old(sent) + Pulled(old(State())).1 else old(sent)
    {
      if newDemand.Some? {
        var _ := UpdateDemand(newDemand.value);
      }
      if bound {
        sent := sent + [PullDemandUpdate];
      }
    }

    method FlushConsumer()
      requires bound
      modifies this
      ensures var r := TransportSteps.FlushConsumer(old(State())); State() == r.0 && sent == old(sent) + r.1
      ensures bufferUpdates == old(bufferUpdates)
    {
      endOfStream := false;
      var _ := UpdateDemand(NO_DEMAND);
      flushInProgress := true;
      sent := sent + [Flush];
    }

    method OnFlushReply()
      modifies `flushInProgress
      ensures State() == Receive(old(State()), FlushReply)
    {
      flushInProgress := false;
    }

    method OnPacketReply(number: nat, newDemand: Option<Demand>)
      requires packetsOutstanding > 0
      modifies `packetsOutstanding, `demand
      ensures State() == Receive(old(State()), PacketReply(number, newDemand))
    {
      packetsOutstanding := packetsOutstanding - 1;
      if newDemand.Some? {
        var _ := UpdateDemand(newDemand.value);
      }
    }

    /** Whether more packets are demanded, by number or by time. */
    method ShouldProducePacket(additional: nat) returns (should: bool)
      ensures should == TransportSteps.ShouldProducePacket(State(), additional)
    {
      if endOfStream {
        return false;
      }
      if demand.minPacketsOutstanding > packetsOutstanding + additional {
        return true;
      }
      return demand.minPts != NO_TIMESTAMP && demand.minPts > ptsLastProduced;
    }

    /** Supplies a packet, bringing the consumer up to date with the buffers first. */
    method ProducePacket(payload: Payload, pts: int, eos: bool) returns (supplied: bool)
      modifies this
      ensures supplied == old(bound)
      ensures supplied ==>
                var r := TransportSteps.ProducePacket(old(State()), old(bufferUpdates), payload, pts, eos);
                State() == r.0 && sent == old(sent) + r.1 && bufferUpdates == []
      ensures !supplied ==> State() == old(State()) && sent == old(sent) && bufferUpdates == old(bufferUpdates)
    {
      if !bound {
        return false;
      }
      packetsOutstanding := packetsOutstanding + 1;
      ptsLastProduced := pts;
      endOfStream := eos;
      prevPacketLabel := prevPacketLabel + 1;
      DrainBufferUpdates();
      sent := sent + [SupplyPacket(prevPacketLabel, payload)];
      return true;
    }

    /** Sends every buffer update that is queued. */
    method DrainBufferUpdates()
      modifies `bufferUpdates, `sent
      ensures bufferUpdates == [] && sent == old(sent) + ChangeRequests(old(bufferUpdates))
    {
      while bufferUpdates != []
        invariant old(sent) + ChangeRequests(old(bufferUpdates)) == sent + ChangeRequests(bufferUpdates)
        decreases |bufferUpdates|
      {
        ChangeRequestsFirst(sent, bufferUpdates);
        var update := PollForBufferUpdate();
        sent := sent + [ChangeBuffer(update)];
      }
    }

    method PollForBufferUpdate() returns (update: BufferUpdate)
      requires bufferUpdates != []
      modifies `bufferUpdates
      ensures update == old(bufferUpdates[0]) && bufferUpdates == old(bufferUpdates)[1..]
    {
      update := bufferUpdates[0];
      bufferUpdates := bufferUpdates[1..];
    }
  }

  class MediaPacketConsumerBase {
    var demand: Demand
    var demandUpdateRequired: bool
    var returningPacket: bool
    var demandUpdateCallback: bool
    var flushPending: bool
    var packetsOutstanding: nat

    /** Flushes handed to the subclass whose completion callback has not run. */
    ghost var flushCallbacks: nat

    /** The buffers added by the producer. */
    var buffers: map<nat, nat>

    /** The replies sent to the producer. */
    var sent: seq<Reply>

    ghost function State(): Consumer
      reads this
    {
      Consumer(demand, demandUpdateRequired, returningPacket, demandUpdateCallback, flushPending, flushCallbacks,
               packetsOutstanding)
    }

    constructor ()
      ensures State() == INITIAL_CONSUMER && buffers == map[] && sent == []
    {
      demand, demandUpdateRequired, returningPacket, demandUpdateCallback := NO_DEMAND, false, false, false;
      flushPending, packetsOutstanding, flushCallbacks := false, 0, 0;
      buffers, sent := map[], [];
    }

    method SetDemand(newDemand: Demand)
      modifies this
      ensures var r := TransportSteps.SetDemand(old(State()), newDemand); State() == r.0 && sent == old(sent) + r.1
      ensures demand == if old(flushPending) then old(demand) else newDemand
      ensures buffers == old(buffers)
    {
      if flushPending {
        return;
      }
      if newDemand.minPacketsOutstanding == demand.minPacketsOutstanding && newDemand.minPts == demand.minPts {
        return;
      }
      demand := newDemand;
      demandUpdateRequired := true;
      MaybeCompletePullDemandUpdate();
    }

    method MaybeCompletePullDemandUpdate()
      modifies this
      ensures var r := MaybeCompletePull(old(State())); State() == r.0 && sent == old(sent) + r.1
      ensures buffers == old(buffers)
    {
      if !demandUpdateRequired || returningPacket || !demandUpdateCallback {
        return;
      }
      demandUpdateRequired := false;
      sent := sent + [DemandReply(demand)];
      demandUpdateCallback := false;
    }

    method PullDemandUpdate()
      modifies this
      ensures var r := AcceptPull(old(State())); State() == r.0 && sent == old(sent) + r.1
      ensures old(demandUpdateCallback) ==> |sent| > |old(sent)| && sent[|old(sent)|] == DemandReply(old(demand))
      ensures buffers == old(buffers)
    {
      if demandUpdateCallback {
        sent := sent + [DemandReply(demand)];
      }
      demandUpdateCallback := true;
      MaybeCompletePullDemandUpdate();
    }

    method AddPayloadBuffer(id: nat, size: nat)
      requires Applicable(buffers, Add(id, size))
      modifies `buffers
      ensures buffers == Apply(old(buffers), Add(id, size))
    {
      buffers := buffers[id := size];
    }

    method RemovePayloadBuffer(id: nat)
      requires Applicable(buffers, Remove(id))
      modifies `buffers
      ensures buffers == Apply(old(buffers), Remove(id))
    {
      buffers := buffers - {id};
    }

    /** Accepts a packet whose payload lies within a known buffer; any other is a failure. */
    method SupplyPacket(payload: Payload) returns (accepted: bool)
      modifies `packetsOutstanding
      ensures accepted == Validate(buffers, payload)
      ensures State() == if accepted then AcceptPacket(old(State())) else old(State())
    {
      if payload.size != 0 {
        if payload.buffer !in buffers {
          return false;
        }
        var size := buffers[payload.buffer];
        if !(payload.offset < size && payload.size <= size - payload.offset) {
          return false;
        }
      }
      packetsOutstanding := packetsOutstanding + 1;
      return true;
    }

    /** The first part of a packet's departure, before the subclass may set demand. */
    method BeginPacketDeparture()
      requires packetsOutstanding > 0
      modifies `packetsOutstanding, `returningPacket
      ensures State() == BeginReturn(old(State()))
    {
      packetsOutstanding := packetsOutstanding - 1;
      returningPacket := true;
    }

    /** The rest of a packet's departure: the reply carries the demand if it changed. */
    method EndPacketDeparture(number: nat)
      modifies this
      ensures var r := EndReturn(old(State()), number); State() == r.0 && sent == old(sent) + r.1
      ensures buffers == old(buffers)
    {
      returningPacket := false;
      if !demandUpdateRequired {
        sent := sent + [PacketReply(number, None)];
        return;
      }
      demandUpdateRequired := false;
      sent := sent + [PacketReply(number, Some(demand))];
    }

    method Flush()
      modifies this
      ensures State() == AcceptFlush(old(State())) && sent == old(sent) && buffers == old(buffers)
    {
      demand := NO_DEMAND;
      flushPending := true;
      flushCallbacks := flushCallbacks + 1;
    }

    /** The callback that the subclass runs once it has flushed. */
    method CompleteFlush()
      requires flushCallbacks > 0
      modifies this
      ensures var r := TransportSteps.CompleteFlush(old(State())); State() == r.0 && sent == old(sent) + r.1
      ensures buffers == old(buffers)
    {
      flushPending := false;
      flushCallbacks := flushCallbacks - 1;
      sent := sent + [FlushReply];
    }
  }

  /** Sending the first update leaves the others to be sent. */
  lemma ChangeRequestsFirst(sent: seq<Request>, updates: seq<BufferUpdate>)
    requires updates != []
    ensures sent + ChangeRequests(updates) == sent + [ChangeBuffer(updates[0])] + ChangeRequests(updates[1..])
  {
  }

}
