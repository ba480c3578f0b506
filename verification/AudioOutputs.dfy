// The objects behind AudioLinks: the link, the renderer that feeds its links, and
// the server's clean-up, each proved to take the steps of the system.

module AudioOutputs {
  import opened Options
  import opened AudioLinks

  class AudioRendererToOutputLink {
    var pendingQueue: seq<nat>
    var flushed: bool

    /** flush_mutex_ is held by a mixer, which has this reference to the front of the queue. */
    var locked: bool
    ghost var front: Option<nat>

    ghost function Value(): Link
      reads this
    {
      Link(pendingQueue, flushed, locked, front)
    }

    constructor ()
      ensures Value() == NEW_LINK
    {
      pendingQueue, flushed, locked, front := [], true, false, None;
    }

    method PushToPendingQueue(packet: nat)
      modifies this
      ensures Value() == AudioLinks.PushToPendingQueue(old(Value()), packet)
    {
      pendingQueue := pendingQueue + [packet];
    }

    /** Takes the whole queue and then drops its references from front to back. */
    method FlushPendingQueue() returns (dropped: seq<nat>)
      requires !locked
      modifies this
      ensures Value() == AudioLinks.FlushPendingQueue(old(Value()))
      ensures dropped == old(pendingQueue)
    {
      var queue := pendingQueue;
      pendingQueue := [];
      flushed := true;
      dropped := ReleaseQueue(queue);
    }

    method ReleaseQueue(queue: seq<nat>) returns (dropped: seq<nat>)
      ensures dropped == queue
    {
      dropped := [];
      for i := 0 to |queue|
        invariant dropped == queue[..i]
      {
        dropped := dropped + [queue[i]];
      }
    }

    method InitPendingQueue(source: AudioRendererToOutputLink)
      requires this != source && pendingQueue == []
      modifies this
      ensures Value() == AudioLinks.InitPendingQueue(old(Value()), source.Value())
    {
      if source.pendingQueue == [] {
        return;
      }
      pendingQueue := source.pendingQueue;
    }

    method LockPendingQueueFront() returns (packet: Option<nat>, wasFlushed: bool)
      requires !locked
      modifies this
      ensures Value() == AudioLinks.LockPendingQueueFront(old(Value())) && packet == front
      ensures wasFlushed == old(flushed)
    {
      locked := true;
      wasFlushed := flushed;
      flushed := false;
      packet := if pendingQueue == [] then None else Some(pendingQueue[0]);
      front := packet;
    }

    method UnlockPendingQueueFront(packet: Option<nat>, releasePacket: bool)
      requires locked && packet == front && (packet.Some? ==> pendingQueue != [])
      modifies this
      ensures Value() == AudioLinks.UnlockPendingQueueFront(old(Value()), releasePacket)
    {
      if packet.Some? {
        front := None;
        if releasePacket {
          pendingQueue := pendingQueue[1..];
        }
      }
      locked := false;
    }
  }

  class AudioRendererImpl {
    var throttleOutputLink: AudioRendererToOutputLink?

    /** The links to the other outputs; their order means nothing. */
    var outputLinks: seq<AudioRendererToOutputLink>

    ghost function Links(): set<AudioRendererToOutputLink>
      reads this
    {
      (set l | l in outputLinks) + if throttleOutputLink != null then {throttleOutputLink} else {}
    }

    ghost predicate Valid()
      reads this
    {
      && (forall i, j :: 0 <= i < j < |outputLinks| ==> outputLinks[i] != outputLinks[j])
      && throttleOutputLink !in outputLinks
    }

    constructor ()
      ensures Valid() && Links() == {}
    {
      throttleOutputLink, outputLinks := null, [];
    }

    /** Every link gets the packet, the throttle link first. */
    method OnPacketReceived(packet: nat)
      requires Valid()
      modifies Links()
      ensures forall l :: l in Links() ==> l.Value() == PushToPendingQueue(old(l.Value()), packet)
    {
      if throttleOutputLink != null {
        throttleOutputLink.PushToPendingQueue(packet);
      }
      for i := 0 to |outputLinks|
        invariant throttleOutputLink != null ==>
                    throttleOutputLink.Value() == PushToPendingQueue(old(throttleOutputLink.Value()), packet)
        invariant forall k :: 0 <= k < i ==>
                  outputLinks[k].Value() == PushToPendingQueue(old(outputLinks[k].Value()), packet)
        invariant forall k :: i <= k < |outputLinks| ==> unchanged(outputLinks[k])
      {
        outputLinks[i].PushToPendingQueue(packet);
      }
    }

    /** Every link loses its queue; the references go from front to back, link by link. */
    method OnFlushRequested() returns (dropped: seq<seq<nat>>)
      requires Valid() && forall l :: l in Links() ==> !l.locked
      modifies Links()
      ensures forall l :: l in Links() ==> l.Value() == FlushPendingQueue(old(l.Value()))
      ensures |dropped| == |outputLinks| + if throttleOutputLink == null then 0 else 1
      ensures throttleOutputLink != null ==> dropped[0] == old(throttleOutputLink.pendingQueue)
      ensures forall k :: 0 <= k < |outputLinks| ==>
                dropped[|dropped| - |outputLinks| + k] == old(outputLinks[k].pendingQueue)
    {
      dropped := [];
      if throttleOutputLink != null {
        var queue := throttleOutputLink.FlushPendingQueue();
        dropped := [queue];
      }
      ghost var n := |dropped|;
      for i := 0 to |outputLinks|
        invariant throttleOutputLink != null ==>
                    throttleOutputLink.Value() == FlushPendingQueue(old(throttleOutputLink.Value()))
        invariant forall k :: 0 <= k < i ==> outputLinks[k].Value() == FlushPendingQueue(old(outputLinks[k].Value()))
        invariant forall k :: i <= k < |outputLinks| ==> unchanged(outputLinks[k])
        invariant |dropped| == n + i && (n == 1 ==> dropped[0] == old(throttleOutputLink.pendingQueue))
        invariant forall k :: 0 <= k < i ==> dropped[n + k] == old(outputLinks[k].pendingQueue)
      {
        var queue := outputLinks[i].FlushPendingQueue();
        dropped := dropped + [queue];
      }
    }

    /** A new output starts with what the throttle link still has. */
    method AddOutput(link: AudioRendererToOutputLink)
      requires Valid() && link !in Links() && link.pendingQueue == []
      modifies this, link
      ensures Valid() && Links() == old(Links()) + {link} && throttleOutputLink == old(throttleOutputLink)
      ensures link.Value() == if throttleOutputLink == null then old(link.Value())
                              else InitPendingQueue(old(link.Value()), throttleOutputLink.Value())
    {
      outputLinks := outputLinks + [link];
      if throttleOutputLink != null {
        link.InitPendingQueue(throttleOutputLink);
      }
    }
  }

  class AudioServerImpl {
    var cleanupQueue: seq<nat>
    var cleanupScheduled: bool
    var shuttingDown: bool

    /** Clean-up tasks posted to the main thread, and the callbacks it has run. */
    var tasks: nat
    var callbacks: seq<nat>

    constructor ()
      ensures In(INITIAL) == INITIAL
    {
      cleanupQueue, cleanupScheduled, shuttingDown, tasks, callbacks := [], false, false, 0, [];
    }

    /** A system whose server is this one. */
    ghost function In(s: System): System
      reads this
    {
      s.(cleanup := cleanupQueue, scheduled := cleanupScheduled, shuttingDown := shuttingDown,
         tasks := tasks, returned := callbacks)
    }

    method SchedulePacketCleanup(packet: nat)
      modifies this
      ensures forall s :: In(s) == AudioLinks.SchedulePacketCleanup(old(In(s)), packet)
    {
      cleanupQueue := cleanupQueue + [packet];
      if !cleanupScheduled && !shuttingDown {
        tasks := tasks + 1;
        cleanupScheduled := true;
      }
    }

    /** Runs the callbacks of all the queued packets, first to last. */
    method DoPacketCleanup()
      modifies this
      ensures forall s ::
                var t := AudioLinks.DoPacketCleanup(old(In(s)));
                In(s) == t.(cleaning := s.cleaning, returned := t.returned + t.cleaning.value)
    {
      var queue := cleanupQueue;
      cleanupQueue := [];
      cleanupScheduled := false;
      for i := 0 to |queue|
        invariant cleanupQueue == [] && !cleanupScheduled && shuttingDown == old(shuttingDown) && tasks == old(tasks)
        invariant callbacks == old(callbacks) + queue[..i]
      {
        callbacks := callbacks + [queue[i]];
      }
    }
  }
}
