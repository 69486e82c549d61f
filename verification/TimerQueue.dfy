/**
 The timer queue of util/events.c as a value: a list of requests, first to fire first.
 `serial` numbers the requests in the order in which they were made.  The program does
 not store it; it is there to say that equal due times keep that order.
 */
module TimerQueue {

  type Callback = nat
  type Context = nat

  datatype Timer = Timer(callback: Callback, context: Context, when: int, instance: int, serial: nat)

  predicate SameKey(t: Timer, callback: Callback, context: Context)
  {
    t.callback == callback && t.context == context
  }

  /** Due earlier, or due at the same time and requested earlier. */
  predicate Before(a: Timer, b: Timer)
  {
    a.when < b.when || (a.when == b.when && a.serial < b.serial)
  }

  predicate Ordered(q: seq<Timer>)
  {
    forall i, j :: 0 <= i < j < |q| ==> Before(q[i], q[j])
  }

  /** At most one request per (callback, context). */
  predicate Unique(q: seq<Timer>)
  {
    forall i, j :: 0 <= i < j < |q| ==> !SameKey(q[i], q[j].callback, q[j].context)
  }

  /** Older than the next request, and labelled no later than `instance`. */
  predicate Labelled(q: seq<Timer>, instance: int, serial: nat)
  {
    forall i :: 0 <= i < |q| ==> q[i].serial < serial && q[i].instance <= instance
  }

  predicate ValidQueue(q: seq<Timer>, instance: int, serial: nat)
  {
    Ordered(q) && Unique(q) && Labelled(q, instance, serial)
  }

  /** The queue without the request for (callback, context), if there is one. */
  function Without(q: seq<Timer>, callback: Callback, context: Context): (r: seq<Timer>)
    ensures |q| - 1 <= |r| <= |q|
  {
    if q == [] then []
    else if SameKey(q[0], callback, context) then q[1..]
    else [q[0]] + Without(q[1..], callback, context)
  }

  /** The queue with a request added after all requests that are due no later. */
  function Insert(q: seq<Timer>, t: Timer): (r: seq<Timer>)
    ensures |r| == |q| + 1
  {
    if q == [] || t.when < q[0].when then [t] + q
    else [q[0]] + Insert(q[1..], t)
  }

  function Request(q: seq<Timer>, t: Timer): seq<Timer>
  {
    Insert(Without(q, t.callback, t.context), t)
  }

  /** `Without`, by the position where a scan from the front stops. */
  lemma {:induction false} WithoutAt(q: seq<Timer>, callback: Callback, context: Context, i: nat)
    requires i <= |q| && forall k :: 0 <= k < i ==> !SameKey(q[k], callback, context)
    requires i < |q| ==> SameKey(q[i], callback, context)
    ensures Without(q, callback, context) == if i < |q| then q[..i] + q[i + 1..] else q
  {
    if i > 0 { WithoutAt(q[1..], callback, context, i - 1); }
  }

  /** `Insert`, by the position where a scan from the front stops. */
  lemma {:induction false} InsertAt(q: seq<Timer>, t: Timer, i: nat)
    requires i <= |q| && forall k :: 0 <= k < i ==> q[k].when <= t.when
    requires i < |q| ==> t.when < q[i].when
    ensures Insert(q, t) == q[..i] + [t] + q[i..]
  {
    if i > 0 { InsertAt(q[1..], t, i - 1); }
  }

  /** What is in the queue, as a set of requests. */
  lemma {:induction false} WithoutMembers(q: seq<Timer>, callback: Callback, context: Context)
    requires Unique(q)
    ensures forall u :: u in Without(q, callback, context) <==> u in q && !SameKey(u, callback, context)
  {
    if q != [] {
      var r := q[1..];
      assert forall u :: u in q <==> u == q[0] || u in r;
      if !SameKey(q[0], callback, context) {
        WithoutMembers(r, callback, context);
      } else {
        forall u | u in r ensures !SameKey(u, callback, context) {
          var i :| 0 <= i < |r| && r[i] == u;
          assert q[i + 1] == u && !SameKey(q[0], u.callback, u.context);
        }
      }
    }
  }

  lemma {:induction false} InsertMembers(q: seq<Timer>, t: Timer)
    ensures forall u :: u in Insert(q, t) <==> u == t || u in q
  {
    if !(q == [] || t.when < q[0].when) {
      var r := q[1..];
      assert forall u :: u in q <==> u == q[0] || u in r;
      InsertMembers(r, t);
    }
  }

  lemma {:induction false} WithoutOrdered(q: seq<Timer>, callback: Callback, context: Context)
    requires Ordered(q)
    ensures Ordered(Without(q, callback, context))
    ensures forall u :: u in Without(q, callback, context) ==> u in q
  {
    if q != [] && !SameKey(q[0], callback, context) {
      var r := Without(q[1..], callback, context);
      WithoutOrdered(q[1..], callback, context);
      Prepend(q[0], r, q);
    }
  }

  /** Putting a first element in front of an ordered list of later ones. */
  lemma Prepend(t: Timer, r: seq<Timer>, q: seq<Timer>)
    requires q != [] && t == q[0] && Ordered(q) && Ordered(r)
    requires forall u :: u in r ==> u in q[1..]
    ensures Ordered([t] + r)
  {
    forall i | 0 <= i < |r| ensures Before(t, r[i]) {
      assert r[i] in q[1..];
      var k :| 0 <= k < |q[1..]| && q[1..][k] == r[i];
      assert q[k + 1] == r[i];
    }
  }

  lemma {:induction false} InsertOrdered(q: seq<Timer>, t: Timer)
    requires Ordered(q) && forall i :: 0 <= i < |q| ==> q[i].serial < t.serial
    ensures Ordered(Insert(q, t))
  {
    if q == [] {
    } else if t.when < q[0].when {
      assert forall i :: 0 <= i < |q| ==> q[0] == q[i] || Before(q[0], q[i]);
    } else {
      var r := q[1..];
      InsertOrdered(r, t);
      InsertMembers(r, t);
      forall i | 0 <= i < |Insert(r, t)| ensures Before(q[0], Insert(r, t)[i]) {
        var u := Insert(r, t)[i];
        assert u in Insert(r, t);
        if u != t {
          var k :| 0 <= k < |r| && r[k] == u;
          assert q[k + 1] == u;
        }
      }
    }
  }

  /** Uniqueness of keys, as a property of the members of an ordered list. */
  lemma UniqueByMembers(q: seq<Timer>)
    requires Ordered(q)
    ensures Unique(q) <==> forall u, v :: u in q && v in q && SameKey(u, v.callback, v.context) ==> u == v
  {
    if Unique(q) {
      forall u, v | u in q && v in q && SameKey(u, v.callback, v.context) ensures u == v {
        var i :| 0 <= i < |q| && q[i] == u;
        var j :| 0 <= j < |q| && q[j] == v;
      }
    }
    if forall u, v :: u in q && v in q && SameKey(u, v.callback, v.context) ==> u == v {
      forall i, j | 0 <= i < j < |q| ensures !SameKey(q[i], q[j].callback, q[j].context) {
        assert Before(q[i], q[j]) && q[i] in q && q[j] in q;
      }
    }
  }

  /** Requests and cancels, from wherever they are made, keep the queue valid. */
  lemma CancelValid(q: seq<Timer>, callback: Callback, context: Context, instance: int, serial: nat)
    requires ValidQueue(q, instance, serial)
    ensures ValidQueue(Without(q, callback, context), instance, serial)
    ensures forall u :: u in Without(q, callback, context) <==> u in q && !SameKey(u, callback, context)
  {
    var r := Without(q, callback, context);
    WithoutOrdered(q, callback, context);
    WithoutMembers(q, callback, context);
    UniqueByMembers(q);
    UniqueByMembers(r);
    forall i | 0 <= i < |r| ensures r[i].serial < serial && r[i].instance <= instance {
      assert r[i] in r;
    }
  }

  lemma RequestValid(q: seq<Timer>, t: Timer, instance: int)
    requires ValidQueue(q, instance, t.serial) && t.instance <= instance
    ensures ValidQueue(Request(q, t), instance, t.serial + 1)
    ensures forall u :: u in Request(q, t) <==> u == t || (u in q && !SameKey(u, t.callback, t.context))
  {
    var r := Without(q, t.callback, t.context);
    CancelValid(q, t.callback, t.context, instance, t.serial);
    InsertOrdered(r, t);
    InsertMembers(r, t);
    UniqueByMembers(r);
    UniqueByMembers(Insert(r, t));
    forall i | 0 <= i < |Insert(r, t)|
      ensures Insert(r, t)[i].serial < t.serial + 1 && Insert(r, t)[i].instance <= instance {
      assert Insert(r, t)[i] in Insert(r, t);
      assert forall j :: 0 <= j < |r| ==> r[j].serial < t.serial && r[j].instance <= instance;
    }
  }

  /** Taking the first request out. */
  lemma PopValid(q: seq<Timer>, instance: int, serial: nat)
    requires q != [] && ValidQueue(q, instance, serial)
    ensures ValidQueue(q[1..], instance, serial)
    ensures forall u :: u in q[1..] <==> u in q && u != q[0]
    ensures forall u :: u in q[1..] ==> Before(q[0], u) && !SameKey(u, q[0].callback, q[0].context)
  {
    var r := q[1..];
    assert forall i :: 0 <= i < |r| ==> r[i] == q[i + 1];
    assert forall u :: u in q ==> u == q[0] || u in r;
  }

  // ------------------------------------------------- draining the queue in event_loop()

  /** What a callback may do to the queue.  `tick` is the time since the clock was last read. */
  datatype Action =
    | RequestTimer(callback: Callback, context: Context, delay: nat, tick: nat)
    | CancelTimer(callback: Callback, context: Context)

  /** A timer and the time, as event_loop() knew it, when its callback was called. */
  datatype Delivery = Delivery(timer: Timer, at: int)

  /** How many timers were requested before the current event_loop() call. */
  function Older(q: seq<Timer>, instance: int): nat
  {
    if q == [] then 0 else (if q[0].instance != instance then 1 else 0) + Older(q[1..], instance)
  }

  lemma {:induction false} OlderWithout(q: seq<Timer>, callback: Callback, context: Context, instance: int)
    ensures Older(Without(q, callback, context), instance) <= Older(q, instance)
  {
    if q != [] { OlderWithout(q[1..], callback, context, instance); }
  }

  lemma {:induction false} OlderInsert(q: seq<Timer>, t: Timer, instance: int)
    requires t.instance == instance
    ensures Older(Insert(q, t), instance) == Older(q, instance)
  {
    if !(q == [] || t.when < q[0].when) { OlderInsert(q[1..], t, instance); }
  }

  predicate Delivered(log: seq<Delivery>, t: Timer)
  {
    exists i :: 0 <= i < |log| && log[i].timer == t
  }

  predicate Touched(acts: seq<Action>, t: Timer)
  {
    exists i :: 0 <= i < |acts| && SameKey(t, acts[i].callback, acts[i].context)
  }

  /** The log is in order of due time, then of request, and nothing was delivered early. */
  predicate InOrder(log: seq<Delivery>, now: int, present: int)
  {
    && (forall i :: 0 <= i < |log| ==> log[i].timer.when <= log[i].at && now <= log[i].at <= present)
    && (forall i, j :: 0 <= i < j < |log| ==> Before(log[i].timer, log[j].timer) && log[i].at <= log[j].at)
  }

  /** Timers of this call carry its label, come from after its start, and are due no earlier than its start. */
  predicate Fresh(u: Timer, now: int, base: nat, instance: int)
  {
    && (u.instance == instance <==> u.serial >= base)
    && (u.instance == instance ==> u.when >= now)
  }

  /** The state of the timer phase that started with the queue `q0`, at time `now`. */
  predicate Draining(q0: seq<Timer>, now: int, base: nat, instance: int,
                     q: seq<Timer>, present: int, serial: nat, log: seq<Delivery>, acts: seq<Action>)
  {
    && ValidQueue(q, instance, serial) && base <= serial && now <= present
    && (forall u :: u in q ==> Fresh(u, now, base, instance) && (u.instance != instance ==> u in q0))
    && InOrder(log, now, present)
    && (forall i :: 0 <= i < |log| ==> log[i].timer in q0 && log[i].timer !in q)
    && (forall i, u :: 0 <= i < |log| && u in q && u.instance != instance ==> Before(log[i].timer, u))
    && (forall u :: u in q0 ==> u in q || Delivered(log, u) || Touched(acts, u))
  }

  lemma DrainStart(q0: seq<Timer>, now: int, instance: int, serial: nat)
    requires ValidQueue(q0, instance - 1, serial)
    ensures Draining(q0, now, serial, instance, q0, now, serial, [], [])
  {
    forall u | u in q0 ensures Fresh(u, now, serial, instance) {
      var i :| 0 <= i < |q0| && q0[i] == u;
    }
  }

  /** Delivering the first timer. */
  lemma DrainDeliver(q0: seq<Timer>, now: int, base: nat, instance: int,
                     q: seq<Timer>, present: int, serial: nat, log: seq<Delivery>, acts: seq<Action>)
    requires Draining(q0, now, base, instance, q, present, serial, log, acts)
    requires q != [] && q[0].when <= present && q[0].instance != instance
    ensures Draining(q0, now, base, instance, q[1..], present, serial, log + [Delivery(q[0], present)], acts)
    ensures Older(q[1..], instance) < Older(q, instance)
  {
    PopValid(q, instance, serial);
    var log' := log + [Delivery(q[0], present)];
    assert q[0] in q && log'[|log|].timer == q[0];
    forall u | u in q0 ensures u in q[1..] || Delivered(log', u) || Touched(acts, u) {
      if Delivered(log, u) {
        var i :| 0 <= i < |log| && log[i].timer == u;
        assert log'[i].timer == u;
      }
    }
  }

  /** A callback cancels a timer. */
  lemma DrainCancel(q0: seq<Timer>, now: int, base: nat, instance: int,
                    q: seq<Timer>, present: int, serial: nat, log: seq<Delivery>, acts: seq<Action>, a: Action)
    requires Draining(q0, now, base, instance, q, present, serial, log, acts) && a.CancelTimer?
    ensures Draining(q0, now, base, instance, Without(q, a.callback, a.context), present, serial, log, acts + [a])
    ensures Older(Without(q, a.callback, a.context), instance) <= Older(q, instance)
  {
    CancelValid(q, a.callback, a.context, instance, serial);
    OlderWithout(q, a.callback, a.context, instance);
    TouchedMore(acts, a);
  }

  lemma TouchedMore(acts: seq<Action>, a: Action)
    ensures forall u :: Touched(acts, u) || SameKey(u, a.callback, a.context) ==> Touched(acts + [a], u)
  {
    forall u | Touched(acts, u) || SameKey(u, a.callback, a.context) ensures Touched(acts + [a], u) {
      if Touched(acts, u) {
        var i :| 0 <= i < |acts| && SameKey(u, acts[i].callback, acts[i].context);
        assert (acts + [a])[i] == acts[i];
      } else {
        assert (acts + [a])[|acts|] == a;
      }
    }
  }

  /** A callback requests a timer, new or existing. */
  lemma DrainRequest(q0: seq<Timer>, now: int, base: nat, instance: int,
                     q: seq<Timer>, present: int, serial: nat, log: seq<Delivery>, acts: seq<Action>, a: Action)
    requires Draining(q0, now, base, instance, q, present, serial, log, acts) && a.RequestTimer?
    requires forall u :: u in q0 ==> u.serial < base
    ensures var t := Timer(a.callback, a.context, present + a.tick + a.delay, instance, serial);
            && Draining(q0, now, base, instance, Request(q, t), present + a.tick, serial + 1, log, acts + [a])
            && Older(Request(q, t), instance) <= Older(q, instance)
  {
    var t := Timer(a.callback, a.context, present + a.tick + a.delay, instance, serial);
    RequestValid(q, t, instance);
    OlderWithout(q, a.callback, a.context, instance);
    OlderInsert(Without(q, a.callback, a.context), t, instance);
    TouchedMore(acts, a);
  }

  /** When the loop stops, no timer that was queued and due at the start is left. */
  lemma DrainEnd(q0: seq<Timer>, now: int, base: nat, instance: int,
                 q: seq<Timer>, present: int, serial: nat, log: seq<Delivery>, acts: seq<Action>)
    requires Draining(q0, now, base, instance, q, present, serial, log, acts)
    requires q == [] || q[0].when > present || q[0].instance == instance
    ensures forall u :: u in q ==> u.when > now || u.instance == instance
  {
    forall u | u in q ensures u.when > now || u.instance == instance {
      Stopped(q, now, base, instance, present, u);
    }
  }

  lemma Stopped(q: seq<Timer>, now: int, base: nat, instance: int, present: int, u: Timer)
    requires Ordered(q) && u in q && now <= present
    requires forall v :: v in q ==> Fresh(v, now, base, instance)
    requires q[0].when > present || q[0].instance == instance
    ensures u.when > now || u.instance == instance
  {
    var i :| 0 <= i < |q| && q[i] == u;
    assert q[0] in q;
    assert i > 0 ==> Before(q[0], q[i]);
  }

  /** No (callback, context) pair is delivered twice. */
  lemma DeliveredOnce(q0: seq<Timer>, log: seq<Delivery>, now: int, present: int, i: nat, j: nat)
    requires Ordered(q0) && Unique(q0) && InOrder(log, now, present) && i < j < |log|
    requires forall k :: 0 <= k < |log| ==> log[k].timer in q0
    ensures !SameKey(log[i].timer, log[j].timer.callback, log[j].timer.context)
  {
    UniqueByMembers(q0);
    assert Before(log[i].timer, log[j].timer);
  }

  // --------------------------------------------------- what is queued after the phase

  /** The time that passed while the callbacks acted. */
  function Ticks(acts: seq<Action>): nat
  {
    if acts == [] then 0
    else
      var a := acts[|acts| - 1];
      Ticks(acts[..|acts| - 1]) + if a.RequestTimer? then a.tick else 0
  }

  datatype Fate = Untouched | Cancelled | Requested(when: int)

  /** What the callbacks leave of the request for (callback, context): the last action on that pair decides. */
  function FateOf(acts: seq<Action>, now: int, callback: Callback, context: Context): Fate
  {
    if acts == [] then Untouched
    else
      var a := acts[|acts| - 1];
      if a.callback != callback || a.context != context then FateOf(acts[..|acts| - 1], now, callback, context)
      else if a.RequestTimer? then Requested(now + Ticks(acts) + a.delay)
      else Cancelled
  }

  predicate On(a: Action, callback: Callback, context: Context)
  {
    a.callback == callback && a.context == context
  }

  /** The last action on its pair: a request is for its own delay after its own reading of the clock. */
  lemma {:induction false} FateIsLast(acts: seq<Action>, now: int, k: nat)
    requires k < |acts| && forall j :: k < j < |acts| ==> !On(acts[j], acts[k].callback, acts[k].context)
    ensures FateOf(acts, now, acts[k].callback, acts[k].context)
         == if acts[k].RequestTimer? then Requested(now + Ticks(acts[..k + 1]) + acts[k].delay) else Cancelled
    decreases |acts|
  {
    var n := |acts| - 1;
    if k == n {
      assert acts[..k + 1] == acts;
    } else {
      assert !On(acts[n], acts[k].callback, acts[k].context);
      FateIsLast(acts[..n], now, k);
      assert acts[..n][..k + 1] == acts[..k + 1];
    }
  }

  lemma {:induction false} FateUntouched(acts: seq<Action>, now: int, callback: Callback, context: Context)
    ensures FateOf(acts, now, callback, context) == Untouched
       <==> forall j :: 0 <= j < |acts| ==> !On(acts[j], callback, context)
  {
    if acts != [] {
      var n := |acts| - 1;
      FateUntouched(acts[..n], now, callback, context);
      assert forall j :: 0 <= j < n ==> acts[..n][j] == acts[j];
    }
  }

  /** The queue holds, for (callback, context), exactly what that fate says. */
  ghost predicate Follows(q0: seq<Timer>, q: seq<Timer>, log: seq<Delivery>, instance: int, fate: Fate,
                          callback: Callback, context: Context)
  {
    match fate
    case Untouched => forall t :: SameKey(t, callback, context) ==> (t in q <==> t in q0 && !Delivered(log, t))
    case Cancelled => forall t :: t in q ==> !SameKey(t, callback, context)
    case Requested(when) =>
      exists t :: t in q && SameKey(t, callback, context) && t.when == when && t.instance == instance
  }

  /** The queue is what the deliveries and the last actions leave of the queue at the start. */
  ghost predicate Settled(q0: seq<Timer>, q: seq<Timer>, log: seq<Delivery>, acts: seq<Action>, now: int, instance: int)
  {
    forall callback, context {:trigger FateOf(acts, now, callback, context)} ::
      Follows(q0, q, log, instance, FateOf(acts, now, callback, context), callback, context)
  }

  lemma SettledStart(q0: seq<Timer>, now: int, instance: int)
    ensures Settled(q0, q0, [], [], now, instance) && Ticks([]) == 0
  {
  }

  lemma DeliveredMore(log: seq<Delivery>, d: Delivery, t: Timer)
    ensures Delivered(log + [d], t) <==> Delivered(log, t) || t == d.timer
  {
    var log' := log + [d];
    if Delivered(log, t) {
      var i :| 0 <= i < |log| && log[i].timer == t;
      assert log'[i].timer == t;
    }
    assert log'[|log|] == d;
  }

  /** Delivering a timer of an earlier call, which no callback of this one has requested anew. */
  lemma SettledDeliver(q0: seq<Timer>, q: seq<Timer>, log: seq<Delivery>, acts: seq<Action>, now: int, present: int,
                       instance: int, serial: nat)
    requires ValidQueue(q, instance, serial) && q != [] && q[0].instance != instance
    requires Settled(q0, q, log, acts, now, instance)
    ensures Settled(q0, q[1..], log + [Delivery(q[0], present)], acts, now, instance)
  {
    PopValid(q, instance, serial);
    var log' := log + [Delivery(q[0], present)];
    forall callback, context
      ensures Follows(q0, q[1..], log', instance, FateOf(acts, now, callback, context), callback, context) {
      var fate := FateOf(acts, now, callback, context);
      assert Follows(q0, q, log, instance, fate, callback, context);
      match fate
      case Untouched =>
        forall t | SameKey(t, callback, context) ensures t in q[1..] <==> t in q0 && !Delivered(log', t) {
          DeliveredMore(log, Delivery(q[0], present), t);
        }
      case Cancelled =>
      case Requested(when) =>
        var t :| t in q && SameKey(t, callback, context) && t.when == when && t.instance == instance;
        assert t in q[1..];
    }
  }

  lemma FateMore(acts: seq<Action>, a: Action, now: int, callback: Callback, context: Context)
    ensures Ticks(acts + [a]) == Ticks(acts) + if a.RequestTimer? then a.tick else 0
    ensures FateOf(acts + [a], now, callback, context)
         == if !On(a, callback, context) then FateOf(acts, now, callback, context)
            else if a.RequestTimer? then Requested(now + Ticks(acts) + a.tick + a.delay) else Cancelled
  {
    assert (acts + [a])[..|acts|] == acts;
  }

  /** An action that changes only what is queued for its own pair. */
  lemma SettledAct(q0: seq<Timer>, q: seq<Timer>, q': seq<Timer>, log: seq<Delivery>, acts: seq<Action>, now: int,
                   instance: int, a: Action)
    requires Settled(q0, q, log, acts, now, instance)
    requires forall u :: !SameKey(u, a.callback, a.context) ==> (u in q' <==> u in q)
    requires Follows(q0, q', log, instance, FateOf(acts + [a], now, a.callback, a.context), a.callback, a.context)
    ensures Settled(q0, q', log, acts + [a], now, instance)
  {
    forall callback, context
      ensures Follows(q0, q', log, instance, FateOf(acts + [a], now, callback, context), callback, context) {
      FateMore(acts, a, now, callback, context);
      if !On(a, callback, context) {
        var fate := FateOf(acts, now, callback, context);
        assert Follows(q0, q, log, instance, fate, callback, context);
        if fate.Requested? {
          var t :| t in q && SameKey(t, callback, context) && t.when == fate.when && t.instance == instance;
          assert t in q';
        }
      }
    }
  }

  lemma SettledCancel(q0: seq<Timer>, q: seq<Timer>, log: seq<Delivery>, acts: seq<Action>, now: int, instance: int,
                      serial: nat, a: Action)
    requires ValidQueue(q, instance, serial) && Settled(q0, q, log, acts, now, instance) && a.CancelTimer?
    ensures Settled(q0, Without(q, a.callback, a.context), log, acts + [a], now, instance)
    ensures Ticks(acts + [a]) == Ticks(acts)
  {
    CancelValid(q, a.callback, a.context, instance, serial);
    FateMore(acts, a, now, a.callback, a.context);
    SettledAct(q0, q, Without(q, a.callback, a.context), log, acts, now, instance, a);
  }

  lemma SettledRequest(q0: seq<Timer>, q: seq<Timer>, log: seq<Delivery>, acts: seq<Action>, now: int, instance: int,
                       serial: nat, a: Action)
    requires ValidQueue(q, instance, serial) && Settled(q0, q, log, acts, now, instance) && a.RequestTimer?
    ensures var t := Timer(a.callback, a.context, now + Ticks(acts) + a.tick + a.delay, instance, serial);
            Settled(q0, Request(q, t), log, acts + [a], now, instance)
    ensures Ticks(acts + [a]) == Ticks(acts) + a.tick
  {
    var t := Timer(a.callback, a.context, now + Ticks(acts) + a.tick + a.delay, instance, serial);
    RequestValid(q, t, instance);
    FateMore(acts, a, now, a.callback, a.context);
    assert t in Request(q, t);
    SettledAct(q0, q, Request(q, t), log, acts, now, instance, a);
  }

  /** What all the callbacks did, in order: `react` says what the callback of the n-th delivery does. */
  function Reactions(log: seq<Delivery>, react: (nat, Timer) -> seq<Action>): seq<Action>
  {
    if log == [] then [] else Reactions(log[..|log| - 1], react) + react(|log|, log[|log| - 1].timer)
  }

  /** When delivery i should happen: when the callbacks before it are done. */
  function MomentOf(log: seq<Delivery>, now: int, react: (nat, Timer) -> seq<Action>, i: nat): int
    requires i <= |log|
  {
    now + Ticks(Reactions(log[..i], react))
  }

  ghost predicate Timely(log: seq<Delivery>, now: int, react: (nat, Timer) -> seq<Action>)
  {
    forall i {:trigger MomentOf(log, now, react, i)} :: 0 <= i < |log| ==> log[i].at == MomentOf(log, now, react, i)
  }

  lemma ReactionsMore(log: seq<Delivery>, d: Delivery, react: (nat, Timer) -> seq<Action>)
    ensures Reactions(log + [d], react) == Reactions(log, react) + react(|log| + 1, d.timer)
  {
    assert (log + [d])[..|log|] == log;
  }

  lemma TimelyMore(log: seq<Delivery>, d: Delivery, now: int, react: (nat, Timer) -> seq<Action>)
    requires Timely(log, now, react) && d.at == now + Ticks(Reactions(log, react))
    ensures Timely(log + [d], now, react)
  {
    var log' := log + [d];
    forall i | 0 <= i < |log'| ensures log'[i].at == MomentOf(log', now, react, i) {
      assert log'[..i] == log[..i];
      if i < |log| {
        assert MomentOf(log', now, react, i) == MomentOf(log, now, react, i);
      } else {
        assert log[..i] == log;
      }
    }
  }

  /** All that is known in the middle of a timer phase.  (Equality with `true` makes the verifier treat the conjunction
      as one fact.) */
  ghost predicate InPhase(q0: seq<Timer>, now: int, base: nat, instance: int,
                          q: seq<Timer>, present: int, serial: nat, log: seq<Delivery>, acts: seq<Action>)
  {
    true == (
      && Draining(q0, now, base, instance, q, present, serial, log, acts) && (forall u :: u in q0 ==> u.serial < base)
      && Settled(q0, q, log, acts, now, instance) && present == now + Ticks(acts))
  }

  lemma PhaseStart(q0: seq<Timer>, now: int, instance: int, serial: nat)
    requires ValidQueue(q0, instance - 1, serial)
    ensures InPhase(q0, now, serial, instance, q0, now, serial, [], [])
  {
    DrainStart(q0, now, instance, serial);
    SettledStart(q0, now, instance);
    assert forall u :: u in q0 ==> u.serial < serial;
  }

  lemma PhaseDeliver(q0: seq<Timer>, now: int, base: nat, instance: int,
                     q: seq<Timer>, present: int, serial: nat, log: seq<Delivery>, acts: seq<Action>)
    requires InPhase(q0, now, base, instance, q, present, serial, log, acts)
    requires q != [] && q[0].when <= present && q[0].instance != instance
    ensures InPhase(q0, now, base, instance, q[1..], present, serial, log + [Delivery(q[0], present)], acts)
    ensures Older(q[1..], instance) < Older(q, instance) && present == now + Ticks(acts)
    ensures ValidQueue(q[1..], instance, serial)
  {
    DrainDeliver(q0, now, base, instance, q, present, serial, log, acts);
    SettledDeliver(q0, q, log, acts, now, present, instance, serial);
  }

  lemma PhaseRequest(q0: seq<Timer>, now: int, base: nat, instance: int,
                     q: seq<Timer>, present: int, serial: nat, log: seq<Delivery>, acts: seq<Action>, a: Action)
    requires InPhase(q0, now, base, instance, q, present, serial, log, acts) && a.RequestTimer?
    ensures var t := Timer(a.callback, a.context, present + a.tick + a.delay, instance, serial);
            && InPhase(q0, now, base, instance, Request(q, t), present + a.tick, serial + 1, log, acts + [a])
            && Older(Request(q, t), instance) <= Older(q, instance)
  {
    DrainRequest(q0, now, base, instance, q, present, serial, log, acts, a);
    SettledRequest(q0, q, log, acts, now, instance, serial, a);
  }

  lemma PhaseCancel(q0: seq<Timer>, now: int, base: nat, instance: int,
                    q: seq<Timer>, present: int, serial: nat, log: seq<Delivery>, acts: seq<Action>, a: Action)
    requires InPhase(q0, now, base, instance, q, present, serial, log, acts) && a.CancelTimer?
    ensures InPhase(q0, now, base, instance, Without(q, a.callback, a.context), present, serial, log, acts + [a])
    ensures Older(Without(q, a.callback, a.context), instance) <= Older(q, instance)
  {
    DrainCancel(q0, now, base, instance, q, present, serial, log, acts, a);
    SettledCancel(q0, q, log, acts, now, instance, serial, a);
  }

  /** The queue after a request or a cancel. */
  function AfterAction(q: seq<Timer>, present: int, serial: nat, instance: int, a: Action): seq<Timer>
  {
    match a
    case RequestTimer(callback, context, delay, tick) =>
      Request(q, Timer(callback, context, present + tick + delay, instance, serial))
    case CancelTimer(callback, context) => Without(q, callback, context)
  }

  lemma PhaseAction(q0: seq<Timer>, now: int, base: nat, instance: int,
                    q: seq<Timer>, present: int, serial: nat, log: seq<Delivery>, acts: seq<Action>, a: Action)
    requires InPhase(q0, now, base, instance, q, present, serial, log, acts)
    ensures var q' := AfterAction(q, present, serial, instance, a);
            && Older(q', instance) <= Older(q, instance)
            && InPhase(q0, now, base, instance, q', present + (if a.RequestTimer? then a.tick else 0),
                       serial + (if a.RequestTimer? then 1 else 0), log, acts + [a])
  {
    match a
    case RequestTimer(_, _, _, _) => PhaseRequest(q0, now, base, instance, q, present, serial, log, acts, a);
    case CancelTimer(_, _) => PhaseCancel(q0, now, base, instance, q, present, serial, log, acts, a);
  }

  /** When the loop stops. */
  lemma PhaseEnd(q0: seq<Timer>, now: int, base: nat, instance: int,
                 q: seq<Timer>, present: int, serial: nat, log: seq<Delivery>, acts: seq<Action>)
    requires InPhase(q0, now, base, instance, q, present, serial, log, acts) && ValidQueue(q0, instance - 1, base)
    requires q == [] || q[0].when > present || q[0].instance == instance
    ensures present == now + Ticks(acts) && InOrder(log, now, present) && Settled(q0, q, log, acts, now, instance)
    ensures forall i :: 0 <= i < |log| ==> log[i].timer in q0
    ensures forall i, j :: 0 <= i < j < |log| ==> !SameKey(log[i].timer, log[j].timer.callback, log[j].timer.context)
    ensures forall t :: t in q0 && t.when <= now ==> t !in q && (Delivered(log, t) || Touched(acts, t))
    ensures forall t :: t in q0 && !Delivered(log, t) && !Touched(acts, t) ==> t in q
    ensures forall t :: t in q && t !in q0 ==> t.instance == instance
  {
    DrainEnd(q0, now, base, instance, q, present, serial, log, acts);
    forall i, j | 0 <= i < j < |log| ensures !SameKey(log[i].timer, log[j].timer.callback, log[j].timer.context) {
      DeliveredOnce(q0, log, now, present, i, j);
    }
    forall t | t in q0 && t.when <= now ensures t !in q {
      assert t.serial < base;
      assert t in q ==> Fresh(t, now, base, instance);
    }
  }

  /** The whole queue after the phase: what was queued before, delivered to nobody and touched by nobody, and the last
      request for each pair that was not cancelled after it; one timer per pair. */
  lemma SettledMembers(q0: seq<Timer>, q: seq<Timer>, log: seq<Delivery>, acts: seq<Action>, now: int, instance: int,
                       serial: nat, t: Timer)
    requires ValidQueue(q, instance, serial) && Settled(q0, q, log, acts, now, instance) && t in q
    ensures match FateOf(acts, now, t.callback, t.context)
            case Untouched => t in q0 && !Delivered(log, t)
            case Cancelled => false
            case Requested(when) => t.when == when && t.instance == instance
  {
    var fate := FateOf(acts, now, t.callback, t.context);
    assert Follows(q0, q, log, instance, fate, t.callback, t.context);
    UniqueByMembers(q);
    if fate.Requested? {
      var u :| u in q && SameKey(u, t.callback, t.context) && u.when == fate.when && u.instance == instance;
      assert u == t;
    }
  }
}
