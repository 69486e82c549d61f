/**
 The event manager of util/events.c: the timer queue, the I/O request masks and the
 table of I/O callbacks.  Clock readings are parameters.
 */
module Events {
  import opened TimerQueue

  /** EVENT_ALLOC_INCR */
  const ALLOC_INCR: nat := 10

  datatype Slot = NoHandler | Handler(callback: Callback, context: Context)

  function Max(a: int, b: int): int { if a < b then b else a }

  class EventManager {
    var timers: seq<Timer>
    var present: int
    var instance: int
    var serial: nat  // number of requests so far
    var fdtable: seq<Slot>
    var rmask: set<int>
    var wmask: set<int>
    var xmask: set<int>
    var maxFd: int

    ghost predicate Valid()
      reads this
    {
      ValidQueue(timers, instance, serial) && MasksOk()
    }

    /** Read and write requests exclude each other; the exception mask is their union;
        exactly the enabled descriptors have a handler. */
    ghost predicate MasksOk()
      reads `fdtable, `rmask, `wmask, `xmask, `maxFd
    {
      && rmask !! wmask && xmask == rmask + wmask
      && (forall fd :: fd in xmask ==> 0 <= fd <= maxFd && fd < |fdtable|)
      && (forall fd :: 0 <= fd < |fdtable| ==> (fdtable[fd].Handler? <==> fd in xmask))
    }

    constructor (now: int)
      ensures Valid() && timers == [] && present == now && xmask == {}
    {
      timers, present, instance, serial := [], now, 0, 0;
      fdtable := seq(ALLOC_INCR, i => NoHandler);
      rmask, wmask, xmask, maxFd := {}, {}, {}, -1;
    }

    // ------------------------------------------------------------ I/O requests

    /** event_extend: make room for descriptor `fd`. */
    method Extend(fd: nat)
      requires fd >= |fdtable| && |fdtable| > 0
      modifies `fdtable
      ensures |fdtable| > fd && |fdtable| > old(|fdtable|)
      ensures fdtable[..old(|fdtable|)] == old(fdtable)
      ensures forall i :: old(|fdtable|) <= i < |fdtable| ==> fdtable[i] == NoHandler
    {
      var oldSlots := |fdtable|;
      var newSlots := if oldSlots > fd / 2 then 2 * oldSlots else fd + ALLOC_INCR;
      fdtable := fdtable + seq(newSlots - oldSlots, i => NoHandler);
    }

    method EnableRead(fd: nat, callback: Callback, context: Context)
      requires Valid() && |fdtable| > 0 && fd !in wmask
      modifies `fdtable, `rmask, `xmask, `maxFd
      ensures Valid() && |fdtable| > 0
      ensures rmask == old(rmask) + {fd} && fd < |fdtable| && fdtable[fd] == Handler(callback, context)
      ensures forall i :: 0 <= i < old(|fdtable|) && i != fd ==> i < |fdtable| && fdtable[i] == old(fdtable)[i]
    {
      if fd >= |fdtable| {
        Extend(fd);
      }
      if fd !in rmask {
        xmask := xmask + {fd};
        rmask := rmask + {fd};
        if maxFd < fd {
          maxFd := fd;
        }
      }
      if fdtable[fd] != Handler(callback, context) {
        fdtable := fdtable[fd := Handler(callback, context)];
      }
    }

    method EnableWrite(fd: nat, callback: Callback, context: Context)
      requires Valid() && |fdtable| > 0 && fd !in rmask
      modifies `fdtable, `wmask, `xmask, `maxFd
      ensures Valid() && |fdtable| > 0
      ensures wmask == old(wmask) + {fd} && fd < |fdtable| && fdtable[fd] == Handler(callback, context)
      ensures forall i :: 0 <= i < old(|fdtable|) && i != fd ==> i < |fdtable| && fdtable[i] == old(fdtable)[i]
    {
      if fd >= |fdtable| {
        Extend(fd);
      }
      if fd !in wmask {
        xmask := xmask + {fd};
        wmask := wmask + {fd};
        if maxFd < fd {
          maxFd := fd;
        }
      }
      if fdtable[fd] != Handler(callback, context) {
        fdtable := fdtable[fd := Handler(callback, context)];
      }
    }

    method DisableReadWrite(fd: nat)
      requires Valid()
      modifies `fdtable, `rmask, `wmask, `xmask
      ensures Valid() && |fdtable| == old(|fdtable|)
      ensures rmask == old(rmask) - {fd} && wmask == old(wmask) - {fd}
      ensures forall i :: 0 <= i < |fdtable| && i != fd ==> fdtable[i] == old(fdtable)[i]
    {
      if fd >= |fdtable| {
        return;
      }
      xmask := xmask - {fd};
      rmask := rmask - {fd};
      wmask := wmask - {fd};
      fdtable := fdtable[fd := NoHandler];
    }

    // ------------------------------------------------------------------ timers

    /** The first loop of event_request_timer: an existing request is taken off the ring. */
    static method RemoveTimer(q: seq<Timer>, callback: Callback, context: Context) returns (r: seq<Timer>)
      ensures r == Without(q, callback, context)
    {
      var i := 0;
      while i < |q| && !SameKey(q[i], callback, context)
        invariant 0 <= i <= |q| && forall k :: 0 <= k < i ==> !SameKey(q[k], callback, context)
      {
        i := i + 1;
      }
      WithoutAt(q, callback, context, i);
      r := if i < |q| then q[..i] + q[i + 1..] else q;
    }

    /** The second loop: the request goes before the first one that is due later. */
    static method PlaceTimer(q: seq<Timer>, t: Timer) returns (r: seq<Timer>)
      ensures r == Insert(q, t)
    {
      var i := 0;
      while i < |q| && !(t.when < q[i].when)
        invariant 0 <= i <= |q| && forall k :: 0 <= k < i ==> q[k].when <= t.when
      {
        i := i + 1;
      }
      InsertAt(q, t, i);
      r := q[..i] + [t] + q[i..];
    }

    /** event_request_timer: one request per (callback, context), placed after those due no later. */
    method Request(callback: Callback, context: Context, delay: nat, now: int) returns (when: int)
      requires Valid()
      modifies `timers, `present, `serial
      ensures Valid() && when == now + delay && present == now && serial == old(serial) + 1
      ensures timers == TimerQueue.Request(old(timers), Timer(callback, context, when, instance, old(serial)))
    {
      present := now;
      var q := RemoveTimer(timers, callback, context);
      when := present + delay;
      var t := Timer(callback, context, when, instance, serial);
      q := PlaceTimer(q, t);
      RequestValid(timers, t, instance);
      timers := q;
      serial := serial + 1;
    }

    /** event_cancel_timer: the time left, or -1 when there was no such request. */
    method Cancel(callback: Callback, context: Context) returns (timeLeft: int)
      requires Valid()
      modifies `timers
      ensures Valid() && timers == Without(old(timers), callback, context)
      ensures timeLeft == -1 <==> forall t :: t in old(timers) ==> !SameKey(t, callback, context)
      ensures timeLeft != -1 ==>
                exists t :: t in old(timers) && SameKey(t, callback, context) && timeLeft == Max(0, t.when - present)
    {
      timeLeft := -1;
      var i := 0;
      while i < |timers| && !SameKey(timers[i], callback, context)
        invariant 0 <= i <= |timers| && forall k :: 0 <= k < i ==> !SameKey(timers[k], callback, context)
      {
        i := i + 1;
      }
      WithoutAt(timers, callback, context, i);
      CancelValid(timers, callback, context, instance, serial);
      if i < |timers| {
        timeLeft := timers[i].when - present;
        if timeLeft < 0 {
          timeLeft := 0;
        }
        assert timers[i] in timers;
        timers := timers[..i] + timers[i + 1..];
      }
    }

    /** One request or cancel made by a callback. */
    method Perform(
      a: Action, ghost q0: seq<Timer>, ghost now: int, ghost base: nat, ghost log: seq<Delivery>,
      ghost acts: seq<Action>)
      requires Valid() && InPhase(q0, now, base, instance, timers, present, serial, log, acts)
      modifies `timers, `present, `serial
      ensures Valid() && InPhase(q0, now, base, instance, timers, present, serial, log, acts + [a])
      ensures Older(timers, instance) <= old(Older(timers, instance))
    {
      PhaseAction(q0, now, base, instance, timers, present, serial, log, acts, a);
      Act(a);
    }

    /** The call itself. */
    method Act(a: Action)
      requires Valid()
      modifies `timers, `present, `serial
      ensures Valid() && timers == AfterAction(old(timers), old(present), old(serial), instance, a)
      ensures present == old(present) + (if a.RequestTimer? then a.tick else 0)
      ensures serial == old(serial) + (if a.RequestTimer? then 1 else 0)
    {
      match a {
        case RequestTimer(callback, context, delay, tick) =>
          var _ := Request(callback, context, delay, present + tick);
        case CancelTimer(callback, context) =>
          var _ := Cancel(callback, context);
      }
    }

    /** Whatever a callback does to the queue: any finite list of requests and cancels. */
    method PerformAll(
      todo: seq<Action>, ghost q0: seq<Timer>, ghost now: int, ghost base: nat, ghost log: seq<Delivery>,
      acts: seq<Action>)
      returns (acts': seq<Action>)
      requires Valid() && InPhase(q0, now, base, instance, timers, present, serial, log, acts)
      modifies `timers, `present, `serial
      ensures Valid() && InPhase(q0, now, base, instance, timers, present, serial, log, acts')
      ensures Older(timers, instance) <= old(Older(timers, instance))
      ensures acts' == acts + todo
    {
      acts' := acts;
      for k := 0 to |todo|
        invariant Valid() && InPhase(q0, now, base, instance, timers, present, serial, log, acts')
        invariant acts' == acts + todo[..k]
        invariant Older(timers, instance) <= old(Older(timers, instance))
      {
        Perform(todo[k], q0, now, base, log, acts');
        acts' := acts' + [todo[k]];
      }
    }

    /** The timer phase of event_loop(), lines 1125-1139.  `react` says what the callback of the
        n-th delivery does; `now` is the clock reading at the start of the phase. */
    method TimerPhase(now: int, react: (nat, Timer) -> seq<Action>) returns (log: seq<Delivery>, acts: seq<Action>)
      requires Valid()
      modifies `timers, `present, `serial, `instance
      ensures Valid() && instance == old(instance) + 1 && present == now + Ticks(acts)
      // Delivered: only timers queued before, none early, in order of due time and then of request, none twice.
      ensures forall i :: 0 <= i < |log| ==> log[i].timer in old(timers)
      ensures InOrder(log, now, present)
      ensures forall i, j :: 0 <= i < j < |log| ==> !SameKey(log[i].timer, log[j].timer.callback, log[j].timer.context)
      // The callbacks did what they do, each when those before it were done.
      ensures acts == Reactions(log, react) && Timely(log, now, react)
      // Every timer that was due at the start is gone: delivered, cancelled or requested anew.
      ensures forall t :: t in old(timers) && t.when <= now ==> t !in timers && (Delivered(log, t) || Touched(acts, t))
      // What is queued: for each pair, what the last action on it says, or what was queued before and not delivered.
      ensures Settled(old(timers), timers, log, acts, now, instance)
      ensures forall t :: t in old(timers) && !Delivered(log, t) && !Touched(acts, t) ==> t in timers
      ensures forall t :: t in timers && t !in old(timers) ==> t.instance == instance
    {
      present := now;
      instance := instance + 1;
      log, acts := [], [];
      ghost var q0, base := timers, serial;
      PhaseStart(q0, now, instance, serial);
      while timers != [] && !(timers[0].when > present) && timers[0].instance != instance
        invariant Valid() && instance == old(instance) + 1
        invariant InPhase(q0, now, base, instance, timers, present, serial, log, acts)
        invariant acts == Reactions(log, react) && Timely(log, now, react)
        decreases Older(timers, instance)
      {
        var timer := timers[0];
        PhaseDeliver(q0, now, base, instance, timers, present, serial, log, acts);
        TimelyMore(log, Delivery(timer, present), now, react);
        ReactionsMore(log, Delivery(timer, present), react);
        timers := timers[1..];
        log := log + [Delivery(timer, present)];
        acts := PerformAll(react(|log|, timer), q0, now, base, log, acts);
      }
      PhaseEnd(q0, now, base, instance, timers, present, serial, log, acts);
    }
  }
}
