// The packets of one audio renderer: every output has a queue of references to
// them, and a packet whose last reference goes is returned. The renderer and the
// clean-up run on the main thread, each output is mixed by a thread of its own.

module AudioLinks {
  import opened Options

  /** An output's queue; front is the reference that the mixer took when it locked the queue. */
  datatype Link = Link(queue: seq<nat>, flushed: bool, locked: bool, front: Option<nat>)

  const NEW_LINK: Link := Link([], true, false, None)

  // ----- what the operations of a link do to it

  function PushToPendingQueue(l: Link, packet: nat): Link {
    l.(queue := l.queue + [packet])
  }

  /** The queue that is to be released is what the link has before. */
  function FlushPendingQueue(l: Link): Link {
    l.(queue := [], flushed := true)
  }

  /** A new link starts with what the source has. */
  function InitPendingQueue(l: Link, source: Link): Link {
    if source.queue == [] then l else l.(queue := source.queue)
  }

  function LockPendingQueueFront(l: Link): Link {
    l.(flushed := false, locked := true, front := if l.queue == [] then None else Some(l.queue[0]))
  }

  /** Gives back what locking the front gave and, if asked to, takes it off the queue. */
  function UnlockPendingQueueFront(l: Link, release: bool): Link
    requires l.front.Some? ==> l.queue != []
  {
    if l.front.Some? && release then l.(queue := l.queue[1..], front := None, locked := false)
    else l.(front := None, locked := false)
  }

  // ----- the system

  /** A push or a flush that is under way: the links it has not reached yet. */
  datatype Push = Push(packet: nat, todo: set<nat>)
  datatype Release = Release(todo: set<nat>, detached: seq<nat>)

  /**
   * pushed counts the packets pushed so far, which are numbered in that order. cleanup are the
   * packets without references, cleaning those of them whose callbacks are being run, and returned
   * those whose callbacks have run. tasks counts the clean-up tasks posted to the main thread.
   */
  datatype System = System(
    pushed: nat,
    links: map<nat, Link>,
    throttle: Option<nat>,
    push: Option<Push>,
    release: Option<Release>,
    cleanup: seq<nat>,
    cleaning: Option<seq<nat>>,
    returned: seq<nat>,
    tasks: nat,
    scheduled: bool,
    shuttingDown: bool)

  const INITIAL: System := System(0, map[], None, None, None, [], None, [], 0, false, false)

  datatype Action =
    | StartPush
    | PushTo(link: nat)
    | EndPush
    | StartFlush
    | FlushLink(link: nat)
    | ReleaseFront
    | EndRelease
    | AddOutput(link: nat)
    | SetThrottleOutput(link: nat)
    | RemoveOutput(link: nat)
    | LockFront(link: nat)
    | UnlockFront(link: nat, release: bool)
    | StartCleanup
    | RunCallback
    | EndCleanup
    | StartShutdown
    | FinalCleanup

  /** The main thread does one thing at a time. */
  predicate Idle(s: System) {
    s.push.None? && s.release.None? && s.cleaning.None?
  }

  /** Some reference to the packet is left. */
  predicate Held(s: System, packet: nat) {
    || (exists l {:trigger HeldBy(s, l, packet)} :: l in s.links && HeldBy(s, l, packet))
    || (s.push.Some? && s.push.value.packet == packet)
    || (s.release.Some? && packet in s.release.value.detached)
  }

  predicate HeldBy(s: System, l: nat, packet: nat) {
    l in s.links && (packet in s.links[l].queue || s.links[l].front == Some(packet))
  }

  /** Enters a packet for clean-up, which is scheduled unless it already is or the server shuts down. */
  function SchedulePacketCleanup(s: System, packet: nat): System {
    if !s.scheduled && !s.shuttingDown
    then s.(cleanup := s.cleanup + [packet], scheduled := true, tasks := s.tasks + 1)
    else s.(cleanup := s.cleanup + [packet])
  }

  /** What dropping a reference leads to, once it is gone: the last one brings the packet into clean-up. */
  function Dropped(s: System, packet: nat): System {
    if Held(s, packet) then s else SchedulePacketCleanup(s, packet)
  }

  /** In a strict system the main thread pushes nothing while it flushes. */
  predicate Enabled(strict: bool, s: System, a: Action) {
    match a
    case StartPush => if strict then Idle(s) else s.push.None? && s.cleaning.None?
    case PushTo(l) =>
      && s.push.Some? && l in s.push.value.todo && l in s.links
      && (s.throttle.Some? && s.throttle.value in s.push.value.todo ==> l == s.throttle.value)
    case EndPush => s.push.Some? && s.push.value.todo == {}
    case StartFlush => Idle(s)
    case FlushLink(l) =>
      && s.release.Some? && s.release.value.detached == [] && l in s.release.value.todo
      && l in s.links && !s.links[l].locked
    case ReleaseFront => s.release.Some? && s.release.value.detached != []
    case EndRelease => s.release.Some? && s.release.value == Release({}, [])
    case AddOutput(l) => Idle(s) && l !in s.links
    case SetThrottleOutput(l) => Idle(s) && l !in s.links && s.throttle.None?
    case RemoveOutput(l) => Idle(s) && l in s.links && !s.links[l].locked
    case LockFront(l) => l in s.links && !s.links[l].locked
    case UnlockFront(l, _) => l in s.links && s.links[l].locked && (s.links[l].front.Some? ==> s.links[l].queue != [])
    case StartCleanup => Idle(s) && s.tasks > 0
    case RunCallback => s.cleaning.Some? && s.cleaning.value != []
    case EndCleanup => s.cleaning == Some([])
    case StartShutdown => Idle(s)
    case FinalCleanup => Idle(s) && s.shuttingDown && s.links == map[]
  }

  function DoPacketCleanup(s: System): System {
    s.(cleanup := [], cleaning := Some(s.cleanup), scheduled := false)
  }

  /** A new link begins with what the throttle link has. */
  function WithOutput(s: System, l: nat): System {
    if s.throttle.Some? && s.throttle.value in s.links
    then s.(links := s.links[l := InitPendingQueue(NEW_LINK, s.links[s.throttle.value])])
    else s.(links := s.links[l := NEW_LINK])
  }

  /** Dropping the mixer's reference cannot be the last one, so what counts is the one in the queue. */
  function Unlocked(s: System, l: nat, release: bool): System
    requires l in s.links && (s.links[l].front.Some? ==> s.links[l].queue != [])
  {
    var s' := s.(links := s.links[l := UnlockPendingQueueFront(s.links[l], release)]);
    if s.links[l].front.Some? && release then Dropped(s', s.links[l].queue[0]) else s'
  }

  function Next(strict: bool, s: System, a: Action): System
    requires Enabled(strict, s, a)
  {
    match a
    case StartPush => s.(pushed := s.pushed + 1, push := Some(Push(s.pushed, s.links.Keys)))
    case PushTo(l) =>
      var p := s.push.value;
      s.(links := s.links[l := PushToPendingQueue(s.links[l], p.packet)], push := Some(p.(todo := p.todo - {l})))
    case EndPush => Dropped(s.(push := None), s.push.value.packet)
    case StartFlush => s.(release := Some(Release(s.links.Keys, [])))
    case FlushLink(l) =>
      s.(links := s.links[l := FlushPendingQueue(s.links[l])],
         release := Some(Release(s.release.value.todo - {l}, s.links[l].queue)))
    case ReleaseFront =>
      var r := s.release.value;
      Dropped(s.(release := Some(r.(detached := r.detached[1..]))), r.detached[0])
    case EndRelease => s.(release := None)
    case AddOutput(l) => WithOutput(s, l)
    case SetThrottleOutput(l) => s.(links := s.links[l := NEW_LINK], throttle := Some(l))
    case RemoveOutput(l) =>
      s.(links := s.links - {l}, throttle := if s.throttle == Some(l) then None else s.throttle,
         release := Some(Release({}, s.links[l].queue)))
    case LockFront(l) => s.(links := s.links[l := LockPendingQueueFront(s.links[l])])
    case UnlockFront(l, release) => Unlocked(s, l, release)
    case StartCleanup => DoPacketCleanup(s.(tasks := s.tasks - 1))
    case RunCallback =>
      s.(cleaning := Some(s.cleaning.value[1..]), returned := s.returned + [s.cleaning.value[0]])
    case EndCleanup => s.(cleaning := None)
    case StartShutdown => s.(shuttingDown := true)
    case FinalCleanup => DoPacketCleanup(s)
  }

  ghost predicate Runs(strict: bool, s: System, actions: seq<Action>, t: System)
    decreases |actions|
  {
    if actions == [] then s == t
    else Enabled(strict, s, actions[0]) && Runs(strict, Next(strict, s, actions[0]), actions[1..], t)
  }

  // ----- what every step keeps

  /** A queue of consecutive packets, the last of which is just before end. */
  predicate EndsAt(q: seq<nat>, end: nat) {
    |q| <= end && forall k :: 0 <= k < |q| ==> q[k] == end - |q| + k
  }

  /** The packets that have lost their last reference, in the order in which they did. */
  function Released(s: System): seq<nat> {
    s.returned + (if s.cleaning.Some? then s.cleaning.value else []) + s.cleanup
  }

  /** A link that a push has still to reach lacks the packet that is being pushed. */
  function EndOf(s: System, l: nat): nat {
    if s.push.Some? && l in s.push.value.todo && s.pushed > 0 then s.pushed - 1 else s.pushed
  }

  ghost predicate LinkOk(s: System, l: nat)
    requires l in s.links
  {
    && EndsAt(s.links[l].queue, EndOf(s, l))
    && (s.links[l].front.Some? ==>
          s.links[l].locked && s.links[l].queue != [] && s.links[l].queue[0] == s.links[l].front.value)
  }

  /** Every queue holds the packets pushed last, without a gap. */
  ghost predicate QueuesOk(s: System) {
    && (forall l {:trigger LinkOk(s, l)} :: l in s.links ==> LinkOk(s, l))
    && (s.push.Some? ==> s.pushed > 0 && s.push.value.packet == s.pushed - 1 && s.push.value.todo <= s.links.Keys)
    && (s.release.Some? ==> EndsAt(s.release.value.detached, s.pushed))
  }

  /** The main thread does one thing at a time. */
  predicate Serial(s: System) {
    && (s.push.Some? ==> s.release.None? && s.cleaning.None?)
    && (s.release.Some? ==> s.cleaning.None?)
  }

  /** The packets released are the first ones, in order; every other one still has a reference. */
  ghost predicate OrderInv(s: System) {
    && EndsAt(Released(s), |Released(s)|) && |Released(s)| <= s.pushed
    && forall p: nat {:trigger Held(s, p)} :: Held(s, p) <==> |Released(s)| <= p < s.pushed
  }

  /** Packets never wait for a clean-up that nobody has asked for, and none is asked for twice. */
  predicate CleanupInv(s: System) {
    && (s.cleanup != [] ==> s.scheduled || s.shuttingDown)
    && (s.scheduled ==> s.tasks > 0)
    && s.tasks <= 1 && (s.tasks == 1 && !s.shuttingDown ==> s.scheduled)
  }

  ghost predicate Inv(s: System) {
    QueuesOk(s) && Serial(s) && OrderInv(s) && CleanupInv(s)
  }

  // ----- dropping references

  /** What holds a packet holds the later ones as well. */
  lemma HeldUpwards(s: System, j: nat, p: nat)
    requires QueuesOk(s) && Held(s, j) && j <= p < s.pushed
    ensures Held(s, p)
  {
    if l :| l in s.links && HeldBy(s, l, j) {
      assert LinkOk(s, l);
      QueueUpwards(s.links[l].queue, EndOf(s, l), j, p);
      assert p in s.links[l].queue ==> HeldBy(s, l, p);
    } else if s.release.Some? && j in s.release.value.detached {
      QueueUpwards(s.release.value.detached, s.pushed, j, p);
    }
  }

  lemma QueueUpwards(q: seq<nat>, end: nat, j: nat, p: nat)
    requires EndsAt(q, end) && j in q && j <= p
    ensures p < end ==> p in q
    ensures j < end
  {
    var k :| 0 <= k < |q| && q[k] == j;
    assert p < end ==> q[k + p - j] == p;
  }

  lemma HeldIsPushed(s: System, p: nat)
    requires QueuesOk(s) && Held(s, p)
    ensures p < s.pushed
  {
    if l :| l in s.links && HeldBy(s, l, p) {
      assert LinkOk(s, l);
      assert p in s.links[l].queue;
      QueueUpwards(s.links[l].queue, EndOf(s, l), p, p);
    } else if s.release.Some? && p in s.release.value.detached {
      QueueUpwards(s.release.value.detached, s.pushed, p, p);
    }
  }

  /** Clean-up has no references to packets. */
  lemma ScheduledSame(s: System, p: nat)
    ensures forall q: nat :: Held(SchedulePacketCleanup(s, p), q) <==> Held(s, q)
    ensures QueuesOk(s) ==> QueuesOk(SchedulePacketCleanup(s, p))
  {
    var t := SchedulePacketCleanup(s, p);
    assert t.links == s.links && t.push == s.push && t.release == s.release;
    forall q: nat
      ensures Held(t, q) <==> Held(s, q)
    {
      SameReferences(s, t, q);
    }
    if QueuesOk(s) {
      forall l | l in t.links
        ensures LinkOk(t, l)
      {
        assert LinkOk(s, l);
      }
    }
  }

  lemma SameReferences(s: System, t: System, q: nat)
    requires t.links == s.links && t.push == s.push && t.release == s.release
    ensures Held(t, q) <==> Held(s, q)
  {
    if l :| l in s.links && HeldBy(s, l, q) {
      assert HeldBy(t, l, q);
    }
    if l :| l in t.links && HeldBy(t, l, q) {
      assert HeldBy(s, l, q);
    }
  }

  /** Only the first packet that is held can lose its last reference. */
  lemma OnlyFirstDrops(s: System, t: System, p: nat)
    requires OrderInv(s) && QueuesOk(t) && t.pushed == s.pushed && !Held(t, p)
    requires forall q: nat :: Held(s, q) <==> Held(t, q) || q == p
    ensures p == |Released(s)|
  {
    var k := |Released(s)|;
    if k < p {
      assert Held(s, p) && Held(s, k) && Held(t, k);
      HeldUpwards(t, k, p);
    }
  }

  /** Dropping a reference to p takes a state with right queues to one in order. */
  lemma DropKeeps(s: System, t: System, p: nat)
    requires OrderInv(s) && CleanupInv(s) && QueuesOk(t) && t.pushed == s.pushed
    requires t.cleanup == s.cleanup && t.cleaning == s.cleaning && t.returned == s.returned
    requires t.tasks == s.tasks && t.scheduled == s.scheduled && t.shuttingDown == s.shuttingDown
    requires forall q: nat :: Held(s, q) <==> Held(t, q) || q == p
    ensures var u := Dropped(t, p);
            && QueuesOk(u) && OrderInv(u) && CleanupInv(u)
            && u.push == t.push && u.release == t.release && u.cleaning == t.cleaning
  {
    assert Held(s, p);
    if !Held(t, p) {
      OnlyFirstDrops(s, t, p);
      var u := SchedulePacketCleanup(t, p);
      ScheduledSame(t, p);
      assert Released(u) == Released(s) + [p];
    } else {
      assert Released(t) == Released(s);
    }
  }

  /** A step after which the same packets are held and released. */
  lemma OrderSame(s: System, t: System)
    requires OrderInv(s) && t.pushed == s.pushed && Released(t) == Released(s)
    requires forall q: nat :: Held(t, q) <==> Held(s, q)
    ensures OrderInv(t)
  {
  }

  // ----- the steps

  lemma StepStartPush(s: System)
    requires Inv(s) && Enabled(true, s, StartPush)
    ensures Inv(Next(true, s, StartPush))
  {
    var t := Next(true, s, StartPush);
    forall l | l in t.links
      ensures LinkOk(t, l)
    {
      assert LinkOk(s, l);
    }
    forall q: nat
      ensures Held(t, q) <==> Held(s, q) || q == s.pushed
    {
      SameLinksHeld(s, t, q);
    }
    assert Released(t) == Released(s);
    if Held(s, s.pushed) {
      HeldIsPushed(s, s.pushed);
    }
  }

  /** What the links hold depends on nothing else. */
  lemma SameLinksHeld(s: System, t: System, q: nat)
    requires t.links == s.links
    ensures (exists l :: l in s.links && HeldBy(s, l, q)) <==> (exists l :: l in t.links && HeldBy(t, l, q))
  {
    if l :| l in s.links && HeldBy(s, l, q) {
      assert HeldBy(t, l, q);
    }
    if l :| l in t.links && HeldBy(t, l, q) {
      assert HeldBy(s, l, q);
    }
  }

  /** What the links hold when one of them has changed. */
  lemma OneLinkHeld(s: System, t: System, l: nat, q: nat)
    requires l in t.links && t.links - {l} == s.links - {l}
    ensures (exists i :: i in t.links && HeldBy(t, i, q)) <==>
              HeldBy(t, l, q) || exists i :: i in s.links && i != l && HeldBy(s, i, q)
  {
    if i :| i in t.links && HeldBy(t, i, q) {
      assert i != l ==> i in t.links - {l} && s.links[i] == t.links[i] && HeldBy(s, i, q);
    }
    if i :| i in s.links && i != l && HeldBy(s, i, q) {
      assert i in s.links - {l} && t.links[i] == s.links[i] && HeldBy(t, i, q);
    }
  }

  /** A link may change as long as it holds the same packets, counting those that others hold anyway. */
  lemma LinkChanged(s: System, t: System, l: nat, q: nat)
    requires l in s.links && l in t.links && t.links - {l} == s.links - {l}
    ensures Held(t, q) <==>
              || HeldBy(t, l, q) || (exists i :: i in s.links && i != l && HeldBy(s, i, q))
              || (t.push.Some? && t.push.value.packet == q) || (t.release.Some? && q in t.release.value.detached)
    ensures Held(s, q) <==>
              || HeldBy(s, l, q) || (exists i :: i in s.links && i != l && HeldBy(s, i, q))
              || (s.push.Some? && s.push.value.packet == q) || (s.release.Some? && q in s.release.value.detached)
  {
    OneLinkHeld(s, t, l, q);
    OneLinkHeld(s, s, l, q);
  }

  lemma OtherLinksOk(s: System, t: System, l: nat)
    requires QueuesOk(s) && t.links - {l} == s.links - {l} && (l in t.links ==> LinkOk(t, l))
    requires forall i :: i in s.links && i != l ==> EndOf(t, i) == EndOf(s, i)
    ensures forall i {:trigger LinkOk(t, i)} :: i in t.links ==> LinkOk(t, i)
  {
    forall i | i in t.links && i != l
      ensures LinkOk(t, i)
    {
      assert i in t.links - {l};
      assert LinkOk(s, i) && s.links[i] == t.links[i];
    }
  }

  lemma StepPushTo(s: System, l: nat)
    requires Inv(s) && Enabled(true, s, PushTo(l))
    ensures Inv(Next(true, s, PushTo(l)))
  {
    var t := Next(true, s, PushTo(l));
    assert LinkOk(s, l);
    assert t.links - {l} == s.links - {l};
    OtherLinksOk(s, t, l);
    forall q: nat
      ensures Held(t, q) <==> Held(s, q)
    {
      LinkChanged(s, t, l, q);
    }
    OrderSame(s, t);
  }

  lemma StepEndPush(s: System)
    requires Inv(s) && Enabled(true, s, EndPush)
    ensures Inv(Next(true, s, EndPush))
  {
    var t := s.(push := None);
    forall l | l in t.links
      ensures LinkOk(t, l)
    {
      assert LinkOk(s, l);
    }
    forall q: nat
      ensures Held(s, q) <==> Held(t, q) || q == s.push.value.packet
    {
      SameLinksHeld(s, t, q);
    }
    DropKeeps(s, t, s.push.value.packet);
  }

  lemma StepFlushLink(s: System, l: nat)
    requires Inv(s) && Enabled(true, s, FlushLink(l))
    ensures Inv(Next(true, s, FlushLink(l)))
  {
    var t := Next(true, s, FlushLink(l));
    assert LinkOk(s, l);
    assert t.links - {l} == s.links - {l};
    OtherLinksOk(s, t, l);
    forall q: nat
      ensures Held(t, q) <==> Held(s, q)
    {
      LinkChanged(s, t, l, q);
    }
    OrderSame(s, t);
  }

  lemma StepReleaseFront(s: System)
    requires Inv(s) && Enabled(true, s, ReleaseFront)
    ensures Inv(Next(true, s, ReleaseFront))
  {
    var r := s.release.value;
    var t := s.(release := Some(r.(detached := r.detached[1..])));
    forall l | l in t.links
      ensures LinkOk(t, l)
    {
      assert LinkOk(s, l);
    }
    forall q: nat
      ensures Held(s, q) <==> Held(t, q) || q == r.detached[0]
    {
      SameLinksHeld(s, t, q);
      assert r.detached == [r.detached[0]] + r.detached[1..];
    }
    DropKeeps(s, t, r.detached[0]);
  }

  /** The steps that change neither links nor references. */
  lemma StepMain(s: System, a: Action)
    requires Inv(s) && Enabled(true, s, a)
    requires a.StartFlush? || a.EndRelease? || a.StartShutdown?
    ensures Inv(Next(true, s, a))
  {
    var t := Next(true, s, a);
    forall l | l in t.links
      ensures LinkOk(t, l)
    {
      assert LinkOk(s, l);
    }
    forall q: nat
      ensures Held(t, q) <==> Held(s, q)
    {
      SameLinksHeld(s, t, q);
    }
    OrderSame(s, t);
  }

  lemma StepCleanup(s: System, a: Action)
    requires Inv(s) && Enabled(true, s, a)
    requires a.StartCleanup? || a.RunCallback? || a.EndCleanup? || a.FinalCleanup?
    ensures Inv(Next(true, s, a))
  {
    var t := Next(true, s, a);
    forall l | l in t.links
      ensures LinkOk(t, l)
    {
      assert LinkOk(s, l);
    }
    forall q: nat
      ensures Held(t, q) <==> Held(s, q)
    {
      SameLinksHeld(s, t, q);
    }
    assert Released(t) == Released(s);
    OrderSame(s, t);
  }

  lemma StepNewLink(s: System, a: Action, l: nat)
    requires Inv(s) && Enabled(true, s, a) && (a == AddOutput(l) || a == SetThrottleOutput(l))
    ensures Inv(Next(true, s, a))
  {
    var t := Next(true, s, a);
    assert s.throttle.Some? && s.throttle.value in s.links ==> LinkOk(s, s.throttle.value);
    assert t.links - {l} == s.links - {l} == s.links;
    OtherLinksOk(s, t, l);
    forall q: nat
      ensures Held(t, q) <==> Held(s, q)
    {
      OneLinkHeld(s, t, l, q);
      if HeldBy(t, l, q) {
        assert HeldBy(s, s.throttle.value, q);
      }
      if i :| i in s.links && HeldBy(s, i, q) {
        assert i != l;
      }
    }
    OrderSame(s, t);
  }

  lemma StepRemoveOutput(s: System, l: nat)
    requires Inv(s) && Enabled(true, s, RemoveOutput(l))
    ensures Inv(Next(true, s, RemoveOutput(l)))
  {
    var t := Next(true, s, RemoveOutput(l));
    assert LinkOk(s, l);
    assert t.links - {l} == s.links - {l};
    OtherLinksOk(s, t, l);
    forall q: nat
      ensures Held(t, q) <==> Held(s, q)
    {
      OneLinkHeld(s, s, l, q);
      if i :| i in s.links && i != l && HeldBy(s, i, q) {
        assert t.links[i] == s.links[i] && HeldBy(t, i, q);
      }
      if i :| i in t.links && HeldBy(t, i, q) {
        assert HeldBy(s, i, q);
      }
    }
    OrderSame(s, t);
  }

  lemma StepLockFront(s: System, l: nat)
    requires Inv(s) && Enabled(true, s, LockFront(l))
    ensures Inv(Next(true, s, LockFront(l)))
  {
    var t := Next(true, s, LockFront(l));
    assert LinkOk(s, l);
    assert t.links - {l} == s.links - {l};
    OtherLinksOk(s, t, l);
    forall q: nat
      ensures Held(t, q) <==> Held(s, q)
    {
      LinkChanged(s, t, l, q);
    }
    OrderSame(s, t);
  }

  lemma StepUnlockFront(s: System, l: nat, release: bool)
    requires Inv(s) && Enabled(true, s, UnlockFront(l, release))
    ensures Inv(Next(true, s, UnlockFront(l, release)))
  {
    var k := s.links[l];
    var t := s.(links := s.links[l := UnlockPendingQueueFront(k, release)]);
    assert LinkOk(s, l);
    assert t.links - {l} == s.links - {l};
    OtherLinksOk(s, t, l);
    if k.front.Some? && release {
      assert k.queue == [k.queue[0]] + k.queue[1..];
      forall q: nat
        ensures Held(s, q) <==> Held(t, q) || q == k.queue[0]
      {
        LinkChanged(s, t, l, q);
      }
      DropKeeps(s, t, k.queue[0]);
    } else {
      forall q: nat
        ensures Held(t, q) <==> Held(s, q)
      {
        LinkChanged(s, t, l, q);
      }
      OrderSame(s, t);
    }
  }

  lemma InitialInv()
    ensures Inv(INITIAL)
  {
  }

  lemma StepKeeps(s: System, a: Action)
    requires Inv(s) && Enabled(true, s, a)
    ensures Inv(Next(true, s, a))
  {
    match a
    case StartPush => StepStartPush(s);
    case PushTo(l) => StepPushTo(s, l);
    case EndPush => StepEndPush(s);
    case FlushLink(l) => StepFlushLink(s, l);
    case ReleaseFront => StepReleaseFront(s);
    case AddOutput(l) => StepNewLink(s, a, l);
    case SetThrottleOutput(l) => StepNewLink(s, a, l);
    case RemoveOutput(l) => StepRemoveOutput(s, l);
    case LockFront(l) => StepLockFront(s, l);
    case UnlockFront(l, release) => StepUnlockFront(s, l, release);
    case StartFlush => StepMain(s, a);
    case EndRelease => StepMain(s, a);
    case StartShutdown => StepMain(s, a);
    case _ => StepCleanup(s, a);
  }

  lemma {:induction false} RunKeeps(s: System, actions: seq<Action>, t: System)
    requires Inv(s) && Runs(true, s, actions, t)
    ensures Inv(t)
    decreases |actions|
  {
    if actions != [] {
      StepKeeps(s, actions[0]);
      RunKeeps(Next(true, s, actions[0]), actions[1..], t);
    }
  }

  // ----- the results

  /**
   * However pushes, flushes, new and removed outputs and mixers interleave: the packets returned
   * and about to be returned are the first ones pushed, in that order, and exactly the others are
   * still held.
   */
  lemma PacketsReturnInOrder(actions: seq<Action>, t: System)
    requires Runs(true, INITIAL, actions, t)
    ensures forall i :: 0 <= i < |Released(t)| ==> Released(t)[i] == i
    ensures forall i :: 0 <= i < |t.returned| ==> t.returned[i] == i
    ensures forall p: nat :: Held(t, p) <==> |Released(t)| <= p < t.pushed
  {
    InitialInv();
    RunKeeps(INITIAL, actions, t);
    assert forall i :: 0 <= i < |t.returned| ==> t.returned[i] == Released(t)[i];
  }

  /** The packet a mixer has locked stays at the front of its queue, so unlocking can always take it off. */
  lemma LockedFrontStays(actions: seq<Action>, t: System, l: nat, release: bool)
    requires Runs(true, INITIAL, actions, t) && l in t.links && t.links[l].locked
    ensures t.links[l].front.Some? ==> t.links[l].queue != [] && t.links[l].queue[0] == t.links[l].front.value
    ensures Enabled(true, t, UnlockFront(l, release))
  {
    InitialInv();
    RunKeeps(INITIAL, actions, t);
    assert LinkOk(t, l);
  }

  /** Once the queues are empty and the main thread is idle, every packet has been released. */
  lemma NothingLost(actions: seq<Action>, t: System)
    requires Runs(true, INITIAL, actions, t) && Idle(t) && forall l :: l in t.links ==> t.links[l].queue == []
    ensures |Released(t)| == t.pushed
    ensures t.cleanup == [] ==> |t.returned| == t.pushed
    ensures t.cleanup != [] ==> Enabled(true, t, StartCleanup) || t.shuttingDown
    ensures t.tasks <= 1
  {
    InitialInv();
    RunKeeps(INITIAL, actions, t);
    var k := |Released(t)|;
    forall l | l in t.links
      ensures !HeldBy(t, l, k)
    {
      assert LinkOk(t, l);
    }
    assert !Held(t, k);
  }

  /** The last clean-up of a shutdown takes in every packet that has not been returned. */
  lemma ShutdownReturnsAll(actions: seq<Action>, t: System)
    requires Runs(true, INITIAL, actions, t) && Enabled(true, t, FinalCleanup)
    ensures var u := Next(true, t, FinalCleanup); u.cleanup == [] && |u.returned| + |u.cleaning.value| == t.pushed
  {
    NothingLost(actions, t);
  }

  // ----- what each output gets to mix

  /**
   * What an output is owed, going by the run alone: the first packet it has not finished with, whether
   * it has yet to learn of a flush or of its own beginning, and the packet it is mixing.
   */
  datatype Due = Due(first: nat, flushed: bool, front: Option<nat>)

  /** A flush takes back all that was pushed, finishing a packet that one; a new output has what the throttle has. */
  function NowDue(s: System, a: Action, due: map<nat, Due>): map<nat, Due> {
    match a
    case AddOutput(l) =>
      var source := s.throttle;
      due[l := Due(if source.Some? && source.value in due then due[source.value].first else s.pushed, true, None)]
    case SetThrottleOutput(l) => due[l := Due(s.pushed, true, None)]
    case RemoveOutput(l) => due - {l}
    case FlushLink(l) => if l in due then due[l := due[l].(first := s.pushed, flushed := true)] else due
    case LockFront(l) =>
      if l !in due then due
      else due[l := due[l].(flushed := false, front := if due[l].first < EndOf(s, l) then Some(due[l].first) else None)]
    case UnlockFront(l, release) =>
      if l !in due then due
      else
        var taken := if release && due[l].front.Some? then 1 else 0;
        due[l := due[l].(first := due[l].first + taken, front := None)]
    case _ => due
  }

  function DueAfter(s: System, actions: seq<Action>, due: map<nat, Due>): map<nat, Due>
    decreases |actions|
  {
    if actions == [] || !Enabled(true, s, actions[0]) then due
    else DueAfter(Next(true, s, actions[0]), actions[1..], NowDue(s, actions[0], due))
  }

  /** An output has the packets from the first it is owed up to the last that has reached it. */
  ghost predicate HasDue(s: System, l: nat, due: Due)
    requires l in s.links
  {
    && due.first <= EndOf(s, l) && |s.links[l].queue| == EndOf(s, l) - due.first
    && (forall k :: 0 <= k < |s.links[l].queue| ==> s.links[l].queue[k] == due.first + k)
    && s.links[l].flushed == due.flushed && s.links[l].front == due.front
  }

  ghost predicate AllHaveDue(s: System, due: map<nat, Due>) {
    && due.Keys == s.links.Keys && (s.throttle.Some? ==> s.throttle.value in s.links)
    && forall l :: l in s.links ==> HasDue(s, l, due[l])
  }

  /** A step that concerns one link leaves the others what they are owed. */
  lemma OneDue(s: System, t: System, l: nat, due: map<nat, Due>, now: map<nat, Due>)
    requires AllHaveDue(s, due) && t.links - {l} == s.links - {l} && now - {l} == due - {l}
    requires forall i :: i in s.links && i != l ==> EndOf(t, i) == EndOf(s, i)
    requires l in now <==> l in t.links
    requires l in t.links ==> HasDue(t, l, now[l])
    requires t.throttle.Some? ==> t.throttle.value in t.links
    ensures AllHaveDue(t, now)
  {
    forall i
      ensures i in t.links <==> i in now
    {
      assert i != l ==> (i in t.links <==> i in t.links - {l}) && (i in now <==> i in now - {l});
      assert i != l ==> (i in s.links <==> i in s.links - {l}) && (i in due <==> i in due - {l});
    }
    forall i | i in t.links && i != l
      ensures HasDue(t, i, now[i])
    {
      assert i in t.links - {l} && i in now - {l} && HasDue(s, i, due[i]);
    }
  }

  lemma SameDue(s: System, t: System, due: map<nat, Due>)
    requires AllHaveDue(s, due) && t.links == s.links && t.throttle == s.throttle
    requires forall i :: i in s.links ==> EndOf(t, i) == EndOf(s, i)
    ensures AllHaveDue(t, due)
  {
    forall i | i in t.links
      ensures HasDue(t, i, due[i])
    {
      assert HasDue(s, i, due[i]);
    }
  }

  lemma PushGivesDue(s: System, l: nat, due: map<nat, Due>)
    requires Inv(s) && Enabled(true, s, PushTo(l)) && AllHaveDue(s, due)
    ensures AllHaveDue(Next(true, s, PushTo(l)), due)
  {
    var t := Next(true, s, PushTo(l));
    assert LinkOk(s, l) && HasDue(s, l, due[l]);
    assert t.links - {l} == s.links - {l};
    OneDue(s, t, l, due, due);
  }

  lemma NewGivesDue(s: System, a: Action, l: nat, due: map<nat, Due>)
    requires Inv(s) && Enabled(true, s, a) && (a == AddOutput(l) || a == SetThrottleOutput(l)) && AllHaveDue(s, due)
    ensures AllHaveDue(Next(true, s, a), NowDue(s, a, due))
  {
    var t, now := Next(true, s, a), NowDue(s, a, due);
    if s.throttle.Some? && s.throttle.value in s.links {
      assert HasDue(s, s.throttle.value, due[s.throttle.value]);
    }
    assert t.links - {l} == s.links - {l} && now - {l} == due - {l};
    OneDue(s, t, l, due, now);
  }

  lemma OldGivesDue(s: System, a: Action, l: nat, due: map<nat, Due>)
    requires Inv(s) && Enabled(true, s, a) && AllHaveDue(s, due)
    requires a == FlushLink(l) || a == LockFront(l) || a == RemoveOutput(l)
    ensures AllHaveDue(Next(true, s, a), NowDue(s, a, due))
  {
    var t, now := Next(true, s, a), NowDue(s, a, due);
    assert LinkOk(s, l) && HasDue(s, l, due[l]);
    assert t.links - {l} == s.links - {l} && now - {l} == due - {l};
    OneDue(s, t, l, due, now);
  }

  lemma UnlockGivesDue(s: System, l: nat, release: bool, due: map<nat, Due>)
    requires Inv(s) && Enabled(true, s, UnlockFront(l, release)) && AllHaveDue(s, due)
    ensures AllHaveDue(Next(true, s, UnlockFront(l, release)), NowDue(s, UnlockFront(l, release), due))
  {
    var t := UnlockedOne(s, l, release, due);
    SameDue(t, Next(true, s, UnlockFront(l, release)), NowDue(s, UnlockFront(l, release), due));
  }

  lemma UnlockedOne(s: System, l: nat, release: bool, due: map<nat, Due>) returns (t: System)
    requires Inv(s) && Enabled(true, s, UnlockFront(l, release)) && AllHaveDue(s, due)
    ensures t == s.(links := s.links[l := UnlockPendingQueueFront(s.links[l], release)])
    ensures AllHaveDue(t, NowDue(s, UnlockFront(l, release), due))
  {
    var now := NowDue(s, UnlockFront(l, release), due);
    t := s.(links := s.links[l := UnlockPendingQueueFront(s.links[l], release)]);
    assert LinkOk(s, l) && HasDue(s, l, due[l]);
    assert t.links - {l} == s.links - {l} && now - {l} == due - {l};
    OneDue(s, t, l, due, now);
  }

  lemma MainKeepsLinks(s: System, a: Action)
    requires Inv(s) && Enabled(true, s, a)
    requires !a.PushTo? && !a.FlushLink? && !a.LockFront? && !a.UnlockFront?
    requires !a.AddOutput? && !a.SetThrottleOutput? && !a.RemoveOutput?
    ensures var t := Next(true, s, a);
            t.links == s.links && t.throttle == s.throttle && forall i :: i in s.links ==> EndOf(t, i) == EndOf(s, i)
  {
  }

  lemma StepGivesDue(s: System, a: Action, due: map<nat, Due>)
    requires Inv(s) && Enabled(true, s, a) && AllHaveDue(s, due)
    ensures AllHaveDue(Next(true, s, a), NowDue(s, a, due))
  {
    match a
    case PushTo(l) => PushGivesDue(s, l, due);
    case AddOutput(l) => NewGivesDue(s, a, l, due);
    case SetThrottleOutput(l) => NewGivesDue(s, a, l, due);
    case RemoveOutput(l) => OldGivesDue(s, a, l, due);
    case FlushLink(l) => OldGivesDue(s, a, l, due);
    case LockFront(l) => OldGivesDue(s, a, l, due);
    case UnlockFront(l, release) => UnlockGivesDue(s, l, release, due);
    case _ => MainKeepsLinks(s, a); SameDue(s, Next(true, s, a), due);
  }

  /**
   * On every run every output has, in order, exactly the packets that it is owed, is told of each flush once,
   * and mixes the first of them.
   */
  lemma {:induction false} OutputsGetDue(s: System, actions: seq<Action>, t: System, due: map<nat, Due>)
    requires Inv(s) && Runs(true, s, actions, t) && AllHaveDue(s, due)
    ensures AllHaveDue(t, DueAfter(s, actions, due))
    decreases |actions|
  {
    if actions != [] {
      StepGivesDue(s, actions[0], due);
      StepKeeps(s, actions[0]);
      OutputsGetDue(Next(true, s, actions[0]), actions[1..], t, NowDue(s, actions[0], due));
    }
  }

  lemma OutputsMixInOrder(actions: seq<Action>, t: System)
    requires Runs(true, INITIAL, actions, t)
    ensures AllHaveDue(t, DueAfter(INITIAL, actions, map[]))
  {
    InitialInv();
    OutputsGetDue(INITIAL, actions, t, map[]);
  }

  /** A flush is under way, and the queues it has reached are empty. */
  ghost predicate FlushedSoFar(s: System, links: set<nat>) {
    && s.release.Some? && s.push.None? && s.cleaning.None? && s.links.Keys == links
    && forall l :: l in s.links ==> l in s.release.value.todo || s.links[l].queue == []
  }

  lemma StepFlushes(s: System, a: Action, links: set<nat>)
    requires FlushedSoFar(s, links) && Enabled(true, s, a) && !a.EndRelease?
    ensures FlushedSoFar(Next(true, s, a), links)
  {
  }

  lemma {:induction false} FlushGoesOn(s: System, actions: seq<Action>, t: System, links: set<nat>)
    requires FlushedSoFar(s, links) && Runs(true, s, actions, t) && forall a :: a in actions ==> !a.EndRelease?
    ensures FlushedSoFar(t, links)
    decreases |actions|
  {
    if actions != [] {
      assert actions[0] in actions && forall a :: a in actions[1..] ==> a in actions;
      StepFlushes(s, actions[0], links);
      FlushGoesOn(Next(true, s, actions[0]), actions[1..], t, links);
    }
  }

  /** A flush ends only when the queues of all outputs are empty, whatever the mixers do meanwhile. */
  lemma FlushReachesAll(s: System, actions: seq<Action>, t: System)
    requires Enabled(true, s, StartFlush) && Runs(true, Next(true, s, StartFlush), actions, t)
    requires (forall a :: a in actions ==> !a.EndRelease?) && Enabled(true, t, EndRelease)
    ensures t.links.Keys == s.links.Keys && forall l :: l in t.links ==> t.links[l].queue == []
  {
    FlushGoesOn(Next(true, s, StartFlush), actions, t, s.links.Keys);
  }

  ghost predicate KeepsOrder(strict: bool) {
    forall actions, t {:trigger Runs(strict, INITIAL, actions, t)} ::
      Runs(strict, INITIAL, actions, t) ==> EndsAt(Released(t), |Released(t)|)
  }

  /** A run with one output, without clean-up. */
  function OneOutput(pushed: nat, link: Link, push: Option<Push>, release: Option<Release>): System {
    System(pushed, map[0 := link], None, push, release, [], None, [], 0, false, false)
  }

  /** A run that goes on. */
  lemma Then(s: System, a: Action, t: System, actions: seq<Action>, u: System)
    requires Enabled(false, s, a) && Next(false, s, a) == t && Runs(false, t, actions, u)
    ensures Runs(false, s, [a] + actions, u)
  {
    assert ([a] + actions)[1..] == actions;
  }

  lemma PushOne(n: nat, release: Option<Release>, actions: seq<Action>, u: System)
    requires release.Some? ==> n !in release.value.detached
    requires Runs(false, OneOutput(n + 1, Link([n], true, false, None), None, release), actions, u)
    ensures Runs(false, OneOutput(n, Link([], true, false, None), None, release),
                 [StartPush] + ([PushTo(0)] + ([EndPush] + actions)), u)
  {
    var s0 := OneOutput(n, Link([], true, false, None), None, release);
    var s1 := OneOutput(n + 1, Link([], true, false, None), Some(Push(n, {0})), release);
    var s2 := OneOutput(n + 1, Link([n], true, false, None), Some(Push(n, {})), release);
    var s3 := OneOutput(n + 1, Link([n], true, false, None), None, release);
    assert HeldBy(s3, 0, n);
    assert s0.links.Keys == {0} && {0} - {0} == {} && [] + [n] == [n];
    assert s1.links[0 := Link([n], true, false, None)] == s2.links;
    Then(s2, EndPush, s3, actions, u);
    Then(s1, PushTo(0), s2, [EndPush] + actions, u);
    Then(s0, StartPush, s1, [PushTo(0)] + ([EndPush] + actions), u);
  }

  lemma MixOne(release: Option<Release>) returns (actions: seq<Action>, u: System)
    requires release == Some(Release({}, [0]))
    ensures Runs(false, OneOutput(2, Link([1], true, false, None), None, release), actions, u)
    ensures u.cleanup == [1] && Released(u) == [1]
  {
    var s0 := OneOutput(2, Link([1], true, false, None), None, release);
    var s1 := OneOutput(2, Link([1], false, true, Some(1)), None, release);
    var s2 := OneOutput(2, Link([], false, false, None), None, release);
    u := SchedulePacketCleanup(s2, 1);
    assert !Held(s2, 1);
    assert [1][1..] == [];
    assert s1.links[0 := Link([], false, false, None)] == s2.links;
    assert s0.links[0 := Link([1], false, true, Some(1))] == s1.links;
    Then(s1, UnlockFront(0, true), u, [], u);
    Then(s0, LockFront(0), s1, [UnlockFront(0, true)] + [], u);
    actions := [LockFront(0)] + ([UnlockFront(0, true)] + []);
  }

  lemma FlushOne(release: Option<Release>, actions: seq<Action>, u: System)
    requires release == Some(Release({}, [0]))
    requires Runs(false, OneOutput(1, Link([], true, false, None), None, release), actions, u)
    ensures Runs(false, OneOutput(1, Link([0], true, false, None), None, None),
                 [StartFlush] + ([FlushLink(0)] + actions), u)
  {
    var s0 := OneOutput(1, Link([0], true, false, None), None, None);
    var s1 := OneOutput(1, Link([0], true, false, None), None, Some(Release({0}, [])));
    var s2 := OneOutput(1, Link([], true, false, None), None, release);
    assert s0.links.Keys == {0} && {0} - {0} == {};
    assert s1.links[0 := Link([], true, false, None)] == s2.links;
    Then(s1, FlushLink(0), s2, actions, u);
    Then(s0, StartFlush, s1, [FlushLink(0)] + actions, u);
  }

  /**
   * If a packet is pushed and mixed while an earlier one is being flushed, it is returned before it:
   * the order depends on the main thread doing one thing at a time.
   */
  lemma PushDuringFlushReorders() returns (actions: seq<Action>, u: System)
    ensures Runs(false, INITIAL, actions, u) && Released(u) == [1]
  {
    var release := Some(Release({}, [0]));
    actions, u := MixOne(release);
    PushOne(1, release, actions, u);
    actions := [StartPush] + ([PushTo(0)] + ([EndPush] + actions));
    FlushOne(release, actions, u);
    actions := [StartFlush] + ([FlushLink(0)] + actions);
    PushOne(0, None, actions, u);
    actions := [StartPush] + ([PushTo(0)] + ([EndPush] + actions));
    Then(INITIAL, AddOutput(0), OneOutput(0, NEW_LINK, None, None), actions, u);
    actions := [AddOutput(0)] + actions;
  }

  /** Packets are released in push order on every run exactly if nothing is pushed during a flush. */
  lemma OrderIffNoPushDuringFlush(strict: bool)
    ensures KeepsOrder(strict) <==> strict
  {
    if strict {
      forall actions, t | Runs(strict, INITIAL, actions, t)
        ensures EndsAt(Released(t), |Released(t)|)
      {
        InitialInv();
        RunKeeps(INITIAL, actions, t);
      }
    } else {
      var actions, u := PushDuringFlushReorders();
      assert Runs(strict, INITIAL, actions, u) && Released(u)[0] == 1;
    }
  }
}
