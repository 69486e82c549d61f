/**
 The client endpoints of util/auto_clnt.c on top of the event manager: any number of
 clients, used by the application at any moment, also from inside callbacks, while
 event_loop() delivers timer and read events.  One step is one call into auto_clnt or
 into the event manager, or one delivery.
 */
module AutoClient {
  import opened Wrappers
  import opened TimerQueue

  type Fd = nat
  type ClientId = nat

  /** auto_clnt_event() and auto_clnt_ttl_event(); the application's callbacks come after. */
  const IDLE: Callback := 0
  const TTL: Callback := 1
  const APP: Callback := 2

  /** An AUTO_CLNT.  `idle` and `ttl` remember the timers requested last, `used` and `since` when that was. */
  datatype Client = Client(stream: Option<Fd>, maxIdle: int, maxTtl: int, idle: Timer, used: int, ttl: Timer,
    since: int)

  datatype Phase = Outside | Timers(start: int, base: nat) | Io

  datatype World = World(q: seq<Timer>, present: int, instance: int, serial: nat,
                         readers: map<Fd, ClientId>, clients: map<ClientId, Client>, phase: Phase)

  datatype Event =
    | NewClient(c: ClientId, maxIdle: int, maxTtl: int)
    | Access(c: ClientId, connected: Option<Fd>, tick: nat, tick': nat)
    | Recover(c: ClientId)
    | FreeClient(c: ClientId)
    | AppRequest(callback: Callback, context: Context, delay: nat, tick: nat)
    | AppCancel(callback: Callback, context: Context)
    | BeginLoop(tick: nat)
    | FireTimer
    | EndTimers
    | FireRead(fd: Fd)
    | EndLoop

  predicate IsOpen(w: World, c: ClientId)
  {
    c in w.clients && w.clients[c].stream.Some?
  }

  // ------------------------------------------------------- calls into the event manager

  function NextTimer(w: World, callback: Callback, context: Context, delay: nat, tick: nat): Timer
  {
    Timer(callback, context, w.present + tick + delay, w.instance, w.serial)
  }

  function RequestAt(w: World, callback: Callback, context: Context, delay: nat, tick: nat): World
  {
    w.(q := Request(w.q, NextTimer(w, callback, context, delay, tick)), present := w.present + tick,
      serial := w.serial + 1)
  }

  function CancelAt(w: World, callback: Callback, context: Context): World
  {
    w.(q := Without(w.q, callback, context))
  }

  // -------------------------------------------------------------- auto_clnt.c

  /** (Re)start the idle timer, if the client has one. */
  function StartIdle(w: World, c: ClientId, tick: nat): World
    requires c in w.clients
  {
    var k := w.clients[c];
    if k.maxIdle > 0 then
      RequestAt(w, IDLE, c, k.maxIdle, tick)
        .(clients := w.clients[c := k.(idle := NextTimer(w, IDLE, c, k.maxIdle, tick), used := w.present + tick)])
    else w
  }

  function StartTtl(w: World, c: ClientId, tick: nat): World
    requires c in w.clients
  {
    var k := w.clients[c];
    if k.maxTtl > 0 then
      RequestAt(w, TTL, c, k.maxTtl, tick)
        .(clients := w.clients[c := k.(ttl := NextTimer(w, TTL, c, k.maxTtl, tick), since := w.present + tick)])
    else w
  }

  function Attach(w: World, c: ClientId, fd: Fd): World
    requires c in w.clients
  {
    w.(clients := w.clients[c := w.clients[c].(stream := Some(fd))], readers := w.readers[fd := c])
  }

  /** auto_clnt_close */
  function Close(w: World, c: ClientId): World
    requires IsOpen(w, c)
  {
    var k := w.clients[c];
    CancelAt(CancelAt(w.(readers := w.readers - {k.stream.value}), IDLE, c), TTL, c)
      .(clients := w.clients[c := k.(stream := None)])
  }

  /** The panic in auto_clnt_event(): a timer or read event arrives for a closed stream. */
  predicate Panics(w: World, e: Event)
  {
    || (e.FireTimer? && w.q != [] && w.q[0].callback < APP && !IsOpen(w, w.q[0].context))
    || (e.FireRead? && e.fd in w.readers && !IsOpen(w, w.readers[e.fd]))
  }

  predicate Due(w: World)
  {
    w.q != [] && w.q[0].when <= w.present && w.q[0].instance != w.instance
  }

  predicate Next(w: World, e: Event, w': World)
  {
    match e
    case NewClient(c, maxIdle, maxTtl) =>
      && c !in w.clients
      && var k := Client(None, maxIdle, maxTtl, NextTimer(w, IDLE, c, 0, 0), 0, NextTimer(w, TTL, c, 0, 0), 0);
      w' == w.(clients := w.clients[c := k])
    case Access(c, connected, tick, tick') =>
      && c in w.clients && (connected.Some? ==> connected.value !in w.readers)
      && w' == if IsOpen(w, c) then StartIdle(w, c, tick)
               else if connected.None? then w
               else StartTtl(StartIdle(Attach(w, c, connected.value), c, tick), c, tick')
    case Recover(c) => c in w.clients && w' == if IsOpen(w, c) then Close(w, c) else w
    case FreeClient(c) =>
      c in w.clients && var v := if IsOpen(w, c) then Close(w, c) else w; w' == v.(clients := v.clients - {c})
    case AppRequest(callback, context, delay, tick) =>
      callback >= APP && w' == RequestAt(w, callback, context, delay, tick)
    case AppCancel(callback, context) => callback >= APP && w' == CancelAt(w, callback, context)
    case BeginLoop(tick) =>
      && w.phase.Outside?
      && w' == w.(present := w.present + tick, instance := w.instance + 1, phase := Timers(w.present + tick, w.serial))
    case FireTimer =>
      && w.phase.Timers? && Due(w) && !Panics(w, e)
      && var v := w.(q := w.q[1..]);
      && w' == if w.q[0].callback < APP then Close(v, w.q[0].context) else v
    case EndTimers => w.phase.Timers? && !Due(w) && w' == w.(phase := Io)
    case FireRead(fd) => w.phase.Io? && fd in w.readers && !Panics(w, e) && w' == Close(w, w.readers[fd])
    case EndLoop => w.phase.Io? && w' == w.(phase := Outside)
  }

  predicate Init(w: World)
  {
    w.q == [] && w.readers == map[] && w.clients == map[] && w.phase.Outside?
  }

  // ------------------------------------------------------------------ invariant

  /** The timer `u` is queued for (callback, c), due at `from + span`; in a timer phase, one that
      was requested in this phase was requested after its start. */
  predicate Armed(w: World, u: Timer, callback: Callback, c: ClientId, from: int, span: int)
  {
    && u in w.q && SameKey(u, callback, c) && u.when == from + span
    && (w.phase.Timers? && u.instance == w.instance ==> from >= w.phase.start)
  }

  predicate ClientOk(w: World, c: ClientId)
    requires c in w.clients
  {
    var k := w.clients[c];
    k.stream.Some? ==>
      && k.stream.value in w.readers && w.readers[k.stream.value] == c
      && (k.maxIdle > 0 ==> Armed(w, k.idle, IDLE, c, k.used, k.maxIdle))
      && (k.maxTtl > 0 ==> Armed(w, k.ttl, TTL, c, k.since, k.maxTtl))
  }

  predicate PhaseOk(w: World)
  {
    w.phase.Timers? ==>
      && w.phase.start <= w.present && w.phase.base <= w.serial
      && forall u :: u in w.q ==> Fresh(u, w.phase.start, w.phase.base, w.instance)
  }

  /** Every queued client timer and every enabled read event belongs to an open stream. */
  predicate EventsOk(w: World)
  {
    && (forall u :: u in w.q && u.callback < APP ==> IsOpen(w, u.context))
    && (forall fd :: fd in w.readers ==> IsOpen(w, w.readers[fd]) && w.clients[w.readers[fd]].stream == Some(fd))
  }

  /** Everything, except that the timers of client `c` may be missing. */
  predicate InvBut(w: World, c: ClientId)
  {
    && ValidQueue(w.q, w.instance, w.serial) && PhaseOk(w) && EventsOk(w)
    && forall d :: d in w.clients && d != c ==> ClientOk(w, d)
  }

  predicate Inv(w: World)
  {
    && ValidQueue(w.q, w.instance, w.serial) && PhaseOk(w) && EventsOk(w)
    && forall c :: c in w.clients ==> ClientOk(w, c)
  }

  predicate Registered(w: World, c: ClientId)
  {
    IsOpen(w, c) && w.clients[c].stream.value in w.readers && w.readers[w.clients[c].stream.value] == c
  }

  lemma AppRequestKeeps(w: World, callback: Callback, context: Context, delay: nat, tick: nat)
    requires Inv(w) && callback >= APP
    ensures Inv(RequestAt(w, callback, context, delay, tick))
  {
    RequestValid(w.q, NextTimer(w, callback, context, delay, tick), w.instance);
  }

  lemma AppCancelKeeps(w: World, callback: Callback, context: Context)
    requires Inv(w) && callback >= APP
    ensures Inv(CancelAt(w, callback, context))
  {
    CancelValid(w.q, callback, context, w.instance, w.serial);
  }

  lemma CloseQueue(w: World, c: ClientId)
    requires ValidQueue(w.q, w.instance, w.serial) && IsOpen(w, c)
    ensures var v := Close(w, c);
            && ValidQueue(v.q, v.instance, v.serial)
            && (forall u :: u in v.q <==> u in w.q && !SameKey(u, IDLE, c) && !SameKey(u, TTL, c))
  {
    CancelValid(w.q, IDLE, c, w.instance, w.serial);
    CancelValid(Without(w.q, IDLE, c), TTL, c, w.instance, w.serial);
  }

  lemma CloseEvents(w: World, c: ClientId)
    requires InvBut(w, c) && Registered(w, c)
    ensures EventsOk(Close(w, c)) && PhaseOk(Close(w, c))
  {
    CloseQueue(w, c);
  }

  lemma CloseClient(w: World, c: ClientId, d: ClientId)
    requires InvBut(w, c) && Registered(w, c) && d in w.clients
    ensures ClientOk(Close(w, c), d)
  {
    CloseQueue(w, c);
    assert d != c ==> ClientOk(w, d);
  }

  lemma CloseKeeps(w: World, c: ClientId)
    requires InvBut(w, c) && Registered(w, c)
    ensures Inv(Close(w, c))
  {
    CloseQueue(w, c);
    CloseEvents(w, c);
    forall d | d in Close(w, c).clients ensures ClientOk(Close(w, c), d) {
      CloseClient(w, c, d);
    }
  }

  lemma AttachKeeps(w: World, c: ClientId, fd: Fd)
    requires Inv(w) && c in w.clients && !IsOpen(w, c) && fd !in w.readers
    ensures InvBut(Attach(w, c, fd), c) && Registered(Attach(w, c, fd), c)
  {
  }

  lemma StartIdleKeeps(w: World, c: ClientId, tick: nat)
    requires InvBut(w, c) && Registered(w, c)
    ensures var v := StartIdle(w, c, tick); var k := v.clients[c];
            && InvBut(v, c) && Registered(v, c)
            && (k.maxIdle > 0 ==> Armed(v, k.idle, IDLE, c, k.used, k.maxIdle))
            && k == w.clients[c].(idle := k.idle, used := k.used)
            && (forall u :: u in w.q && SameKey(u, TTL, c) ==> u in v.q)
  {
    var k := w.clients[c];
    if k.maxIdle > 0 {
      RequestValid(w.q, NextTimer(w, IDLE, c, k.maxIdle, tick), w.instance);
    }
  }

  lemma StartTtlKeeps(w: World, c: ClientId, tick: nat)
    requires InvBut(w, c) && Registered(w, c)
    requires var k := w.clients[c]; k.maxIdle > 0 ==> Armed(w, k.idle, IDLE, c, k.used, k.maxIdle)
    ensures Inv(StartTtl(w, c, tick))
  {
    var k := w.clients[c];
    if k.maxTtl > 0 {
      RequestValid(w.q, NextTimer(w, TTL, c, k.maxTtl, tick), w.instance);
    }
  }

  lemma AccessKeeps(w: World, c: ClientId, connected: Option<Fd>, tick: nat, tick': nat)
    requires Inv(w) && c in w.clients && (connected.Some? ==> connected.value !in w.readers)
    ensures IsOpen(w, c) ==> Inv(StartIdle(w, c, tick))
    ensures !IsOpen(w, c) && connected.Some?
            ==> Inv(StartTtl(StartIdle(Attach(w, c, connected.value), c, tick), c, tick'))
  {
    if IsOpen(w, c) {
      StartIdleKeeps(w, c, tick);
    } else if connected.Some? {
      AttachKeeps(w, c, connected.value);
      StartIdleKeeps(Attach(w, c, connected.value), c, tick);
      StartTtlKeeps(StartIdle(Attach(w, c, connected.value), c, tick), c, tick');
    }
  }

  lemma FireTimerKeeps(w: World, w': World)
    requires Inv(w) && Next(w, FireTimer, w')
    ensures Inv(w')
  {
    var v, t := w.(q := w.q[1..]), w.q[0];
    assert t in w.q;
    PopValid(w.q, w.instance, w.serial);
    if t.callback < APP {
      var c := t.context;
      CloseKeeps(v, c);
    }
  }

  lemma NewClientKeeps(w: World, e: Event, w': World)
    requires Inv(w) && Next(w, e, w') && e.NewClient?
    ensures Inv(w')
  {
    assert forall d :: d in w.clients ==> ClientOk(w, d) && ClientOk(w', d);
  }

  lemma FreeKeeps(w: World, c: ClientId)
    requires Inv(w) && !IsOpen(w, c)
    ensures Inv(w.(clients := w.clients - {c}))
  {
    var w' := w.(clients := w.clients - {c});
    assert forall d :: d in w'.clients ==> ClientOk(w, d) && ClientOk(w', d);
  }

  lemma BeginLoopKeeps(w: World, tick: nat, w': World)
    requires Inv(w) && Next(w, BeginLoop(tick), w')
    ensures Inv(w')
  {
    forall u | u in w.q ensures u.instance <= w.instance && u.serial < w.serial {
      var i :| 0 <= i < |w.q| && w.q[i] == u;
    }
    assert forall d :: d in w.clients ==> ClientOk(w, d) && ClientOk(w', d);
  }

  lemma PhaseOverKeeps(w: World, phase: Phase)
    requires Inv(w) && !phase.Timers?
    ensures Inv(w.(phase := phase))
  {
    assert forall d :: d in w.clients ==> ClientOk(w, d) && ClientOk(w.(phase := phase), d);
  }

  lemma InitInv(w: World)
    requires Init(w)
    ensures Inv(w)
  {
  }

  lemma NextInv(w: World, e: Event, w': World)
    requires Inv(w) && Next(w, e, w')
    ensures Inv(w')
  {
    match e
    case NewClient(_, _, _) => NewClientKeeps(w, e, w');
    case Access(c, connected, tick, tick') => AccessKeeps(w, c, connected, tick, tick');
    case Recover(c) => if IsOpen(w, c) { CloseKeeps(w, c); }
    case FreeClient(c) =>
      if IsOpen(w, c) { CloseKeeps(w, c); }
      FreeKeeps(if IsOpen(w, c) then Close(w, c) else w, c);
    case AppRequest(callback, context, delay, tick) => AppRequestKeeps(w, callback, context, delay, tick);
    case AppCancel(callback, context) => AppCancelKeeps(w, callback, context);
    case BeginLoop(tick) => BeginLoopKeeps(w, tick, w');
    case FireTimer => FireTimerKeeps(w, w');
    case EndTimers => PhaseOverKeeps(w, Io);
    case FireRead(fd) => CloseKeeps(w, w.readers[fd]);
    case EndLoop => PhaseOverKeeps(w, Outside);
  }

  // ----------------------------------------------------------------------- runs

  predicate Run(worlds: seq<World>, events: seq<Event>)
  {
    && |worlds| == |events| + 1 && Init(worlds[0])
    && forall i :: 0 <= i < |events| ==> Next(worlds[i], events[i], worlds[i + 1])
  }

  lemma {:induction false} RunInv(worlds: seq<World>, events: seq<Event>, n: nat)
    requires Run(worlds, events) && n < |worlds|
    ensures Inv(worlds[n])
  {
    if n == 0 {
      InitInv(worlds[0]);
    } else {
      RunInv(worlds, events, n - 1);
      NextInv(worlds[n - 1], events[n - 1], worlds[n]);
    }
  }

  /** In every run, no event can arrive for a closed stream: the panic cannot happen. */
  lemma NeverPanics(worlds: seq<World>, events: seq<Event>, n: nat, e: Event)
    requires Run(worlds, events) && n < |worlds|
    ensures !Panics(worlds[n], e)
  {
    RunInv(worlds, events, n);
    var w := worlds[n];
    assert w.q != [] ==> w.q[0] in w.q;
  }

  /** When the timer phase of an event_loop() call is over, no connection is left that had reached its
      maximal age, or had been idle for the maximal time, when the phase started. */
  lemma NoConnectionOutlives(worlds: seq<World>, events: seq<Event>, n: nat, c: ClientId)
    requires Run(worlds, events) && n < |events| && events[n].EndTimers? && IsOpen(worlds[n + 1], c)
    ensures worlds[n].phase.Timers?
    ensures var k, start := worlds[n + 1].clients[c], worlds[n].phase.start;
            && (k.maxTtl > 0 ==> k.since + k.maxTtl > start)
            && (k.maxIdle > 0 ==> k.used + k.maxIdle > start)
  {
    RunInv(worlds, events, n);
    var w := worlds[n];
    var k := w.clients[c];
    assert ClientOk(w, c);
    if k.maxTtl > 0 {
      Stopped(w.q, w.phase.start, w.phase.base, w.instance, w.present, k.ttl);
    }
    if k.maxIdle > 0 {
      Stopped(w.q, w.phase.start, w.phase.base, w.instance, w.present, k.idle);
    }
  }

  // ---------------------------------------------------------- deliveries and ages

  /** The client that an event is delivered to. */
  predicate DeliversTo(w: World, e: Event, c: ClientId)
  {
    || (e.FireTimer? && w.q != [] && w.q[0].callback < APP && w.q[0].context == c)
    || (e.FireRead? && e.fd in w.readers && w.readers[e.fd] == c)
  }

  /** In every run, a timer or read event that is delivered to a client closes that client, which was open: neither its
      read event nor any timer of it is left.  No other client is touched. */
  lemma DeliveryCloses(worlds: seq<World>, events: seq<Event>, n: nat, c: ClientId)
    requires Run(worlds, events) && n < |events| && DeliversTo(worlds[n], events[n], c)
    ensures var w, w' := worlds[n], worlds[n + 1];
            && IsOpen(w, c) && c in w'.clients && !IsOpen(w', c) && w.clients[c].stream.value !in w'.readers
            && (forall u :: u in w'.q ==> !SameKey(u, IDLE, c) && !SameKey(u, TTL, c))
            && w'.clients.Keys == w.clients.Keys
            && forall d :: d in w.clients && d != c ==> w'.clients[d] == w.clients[d]
  {
    RunInv(worlds, events, n);
    var w, e := worlds[n], events[n];
    assert Next(w, e, worlds[n + 1]);
    if e.FireTimer? {
      PopValid(w.q, w.instance, w.serial);
      assert w.q[0] in w.q;
      CloseQueue(w.(q := w.q[1..]), c);
    } else {
      CloseQueue(w, c);
    }
  }

  /** How a client comes to be open, and what stays as it is while it is. */
  lemma StaysOpen(w: World, e: Event, w': World, c: ClientId)
    requires Inv(w) && Next(w, e, w') && IsOpen(w', c)
    ensures c in w.clients && w.clients[c].maxIdle == w'.clients[c].maxIdle
    ensures w.clients[c].maxTtl == w'.clients[c].maxTtl && w.present <= w'.present
    ensures !IsOpen(w, c) ==>
              && e.Access? && e.c == c && e.connected == w'.clients[c].stream
              && (w'.clients[c].maxTtl > 0 ==> w'.clients[c].since == w'.present)
              && (w'.clients[c].maxIdle > 0 ==> w.present <= w'.clients[c].used <= w'.present)
    ensures IsOpen(w, c) ==> w'.clients[c].stream == w.clients[c].stream && w'.clients[c].since == w.clients[c].since
    ensures IsOpen(w, c) && e.Access? && e.c == c && w'.clients[c].maxIdle > 0 ==> w'.clients[c].used == w'.present
    ensures IsOpen(w, c) && !(e.Access? && e.c == c) ==> w'.clients[c].used == w.clients[c].used
  {
  }

  /** Client c is opened at step j, and open from then on up to step n. */
  predicate OpenSince(worlds: seq<World>, events: seq<Event>, j: nat, n: nat, c: ClientId)
    requires |worlds| == |events| + 1
  {
    && j < n < |worlds| && events[j].Access? && events[j].c == c && !IsOpen(worlds[j], c)
    && forall i {:trigger IsOpen(worlds[i], c)} :: j < i <= n ==> IsOpen(worlds[i], c)
  }

  /** In every run, the connection of an open client was made by the access that found it closed, and its age is counted
      from then. */
  lemma {:induction false} OpenedAt(worlds: seq<World>, events: seq<Event>, n: nat, c: ClientId) returns (j: nat)
    requires Run(worlds, events) && n < |worlds| && IsOpen(worlds[n], c)
    ensures OpenSince(worlds, events, j, n, c) && events[j].connected == worlds[n].clients[c].stream
    ensures worlds[n].clients[c].maxTtl > 0 ==> worlds[n].clients[c].since == worlds[j + 1].present
  {
    RunInv(worlds, events, n - 1);
    StaysOpen(worlds[n - 1], events[n - 1], worlds[n], c);
    if IsOpen(worlds[n - 1], c) {
      j := OpenedAt(worlds, events, n - 1, c);
    } else {
      j := n - 1;
    }
  }

  /** ... and its idle time from the last access. */
  lemma {:induction false} UsedAt(worlds: seq<World>, events: seq<Event>, n: nat, c: ClientId) returns (m: nat)
    requires Run(worlds, events) && n < |worlds| && IsOpen(worlds[n], c)
    ensures m < n && events[m].Access? && events[m].c == c
    ensures forall i :: m < i < n ==> !(events[i].Access? && events[i].c == c)
    ensures worlds[n].clients[c].maxIdle > 0 ==>
              worlds[m].present <= worlds[n].clients[c].used <= worlds[m + 1].present
  {
    RunInv(worlds, events, n - 1);
    StaysOpen(worlds[n - 1], events[n - 1], worlds[n], c);
    if events[n - 1].Access? && events[n - 1].c == c {
      m := n - 1;
    } else {
      m := UsedAt(worlds, events, n - 1, c);
    }
  }

  /** So no connection outlives the first timer phase that starts when it has reached its maximal age since it was
      opened, or its maximal idle time since the last access. */
  lemma NoneTooOld(worlds: seq<World>, events: seq<Event>, n: nat, c: ClientId) returns (j: nat, m: nat)
    requires Run(worlds, events) && n < |events| && events[n].EndTimers? && IsOpen(worlds[n + 1], c)
    ensures OpenSince(worlds, events, j, n + 1, c) && m <= n && events[m].Access? && events[m].c == c
    ensures forall i :: m < i <= n ==> !(events[i].Access? && events[i].c == c)
    ensures worlds[n].phase.Timers?
    ensures var k, start := worlds[n + 1].clients[c], worlds[n].phase.start;
            && (k.maxTtl > 0 ==> worlds[j + 1].present + k.maxTtl > start)
            && (k.maxIdle > 0 ==> worlds[m + 1].present + k.maxIdle > start)
  {
    NoConnectionOutlives(worlds, events, n, c);
    j := OpenedAt(worlds, events, n + 1, c);
    m := UsedAt(worlds, events, n + 1, c);
  }
}
