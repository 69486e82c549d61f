/**
 One AUTO_CLNT object of util/auto_clnt.c and the event manager it registers with.
 Results of connect() and clock readings are parameters.
 */
module AutoClientObject {
  import opened Wrappers
  import opened TimerQueue
  import opened Events
  import AutoClient

  type Stream = Option<AutoClient.Fd>

  /** The queue after the idle timer of client `id` is (re)started at time `now`, if it has one. */
  function WithIdle(q: seq<Timer>, id: Context, maxIdle: int, now: int, instance: int, serial: nat): seq<Timer>
  {
    if maxIdle > 0 then Request(q, Timer(AutoClient.IDLE, id, now + maxIdle, instance, serial)) else q
  }

  function WithTtl(q: seq<Timer>, id: Context, maxTtl: int, now: int, instance: int, serial: nat): seq<Timer>
  {
    if maxTtl > 0 then Request(q, Timer(AutoClient.TTL, id, now + maxTtl, instance, serial)) else q
  }

  /** The client whose read event on `fd` is enabled. */
  function Reader(slots: seq<Slot>, mask: set<int>, fd: nat): Option<Context>
  {
    if fd in mask && fd < |slots| && slots[fd].Handler? && slots[fd].callback == AutoClient.IDLE
    then Some(slots[fd].context) else None
  }

  function ReaderIn(w: AutoClient.World, fd: nat): Option<Context>
  {
    if fd in w.readers then Some(w.readers[fd]) else None
  }

  lemma OpenStep(w: AutoClient.World, c: Context, fd: nat, tick: nat, tick': nat)
    requires c in w.clients && w.clients[c].stream.None? && fd !in w.readers
    ensures AutoClient.Next(w, AutoClient.Access(c, Some(fd), tick, tick'),
              AutoClient.StartTtl(AutoClient.StartIdle(AutoClient.Attach(w, c, fd), c, tick), c, tick'))
  {
  }

  /** The time that passes between a reading of the clock and the one before it. */
  function Tick(present: int, now: int): nat
  {
    if present < now then now - present else 0
  }

  class AutoClnt {
    var vstream: Stream
    const id: Context
    const maxIdle: int
    const maxTtl: int
    const ev: EventManager

    ghost predicate Valid()
      reads this, ev
    {
      ev.Valid() && |ev.fdtable| > 0 && (vstream.Some? ==> vstream.value in ev.rmask)
    }

    /** The state machine's `w` is what this client and the event manager hold. */
    ghost predicate Mirrors(w: AutoClient.World)
      reads this, ev
    {
      && w.q == ev.timers && w.present == ev.present && w.instance == ev.instance && w.serial == ev.serial
      && id in w.clients && w.clients[id].stream == vstream
      && w.clients[id].maxIdle == maxIdle && w.clients[id].maxTtl == maxTtl
      && forall fd: nat {:trigger ReaderIn(w, fd)} {:trigger Reader(ev.fdtable, ev.rmask, fd)} ::
           Reader(ev.fdtable, ev.rmask, fd) == ReaderIn(w, fd)
    }

    constructor (ev: EventManager, id: Context, maxIdle: int, maxTtl: int)
      requires ev.Valid() && |ev.fdtable| > 0
      ensures Valid() && vstream.None? && this.ev == ev && this.id == id
      ensures this.maxIdle == maxIdle && this.maxTtl == maxTtl
    {
      this.ev, this.id, this.maxIdle, this.maxTtl := ev, id, maxIdle, maxTtl;
      vstream := None;
    }

    /** The read event of a new stream is enabled. */
    method Attach(fd: nat, ghost w: AutoClient.World)
      requires Valid() && vstream.None? && fd !in ev.xmask && Mirrors(w)
      modifies this, ev`fdtable, ev`rmask, ev`xmask, ev`maxFd
      ensures Valid() && vstream == Some(fd) && Mirrors(AutoClient.Attach(w, id, fd))
      ensures ev.rmask == old(ev.rmask) + {fd} && ev.fdtable[fd] == Handler(AutoClient.IDLE, id)
    {
      ghost var slots, mask, w' := ev.fdtable, ev.rmask, AutoClient.Attach(w, id, fd);
      vstream := Some(fd);
      ev.EnableRead(fd, AutoClient.IDLE, id);
      forall x: nat ensures Reader(ev.fdtable, ev.rmask, x) == ReaderIn(w', x) {
        assert Reader(slots, mask, x) == ReaderIn(w, x);
      }
    }

    /** The idle timer is (re)started, if the client has one. */
    method StartIdle(now: int, ghost w: AutoClient.World)
      requires Valid() && Mirrors(w) && now >= ev.present
      modifies ev`timers, ev`present, ev`serial
      ensures Valid() && Mirrors(AutoClient.StartIdle(w, id, Tick(old(ev.present), now)))
      ensures ev.timers == WithIdle(old(ev.timers), id, maxIdle, now, ev.instance, old(ev.serial))
      ensures ev.serial == old(ev.serial) + (if maxIdle > 0 then 1 else 0)
      ensures ev.present == if maxIdle > 0 then now else old(ev.present)
    {
      if maxIdle > 0 {
        ghost var w' := AutoClient.StartIdle(w, id, Tick(ev.present, now));
        var _ := ev.Request(AutoClient.IDLE, id, maxIdle, now);
        assert forall fd: nat :: ReaderIn(w', fd) == ReaderIn(w, fd);
      }
    }

    method StartTtl(now: int, ghost w: AutoClient.World)
      requires Valid() && Mirrors(w) && now >= ev.present
      modifies ev`timers, ev`present, ev`serial
      ensures Valid() && Mirrors(AutoClient.StartTtl(w, id, Tick(old(ev.present), now)))
      ensures ev.timers == WithTtl(old(ev.timers), id, maxTtl, now, ev.instance, old(ev.serial))
    {
      if maxTtl > 0 {
        ghost var w' := AutoClient.StartTtl(w, id, Tick(ev.present, now));
        var _ := ev.Request(AutoClient.TTL, id, maxTtl, now);
        assert forall fd: nat :: ReaderIn(w', fd) == ReaderIn(w, fd);
      }
    }

    /** auto_clnt_open: `connected` is the descriptor, `now` and `now'` the clock at the two timer requests. */
    method Open(connected: Stream, now: int, now': int, ghost w: AutoClient.World) returns (ghost w': AutoClient.World)
      requires Valid() && vstream.None? && (connected.Some? ==> connected.value !in ev.xmask)
      requires Mirrors(w) && ev.present <= now <= now'
      modifies this, ev
      ensures Valid() && vstream == connected && ev.instance == old(ev.instance) && ev.wmask == old(ev.wmask)
      ensures connected.None? ==> ev.timers == old(ev.timers) && ev.rmask == old(ev.rmask)
      ensures connected.Some? ==>
                && ev.rmask == old(ev.rmask) + {connected.value}
                && ev.fdtable[connected.value] == Handler(AutoClient.IDLE, id)
                && var q := WithIdle(old(ev.timers), id, maxIdle, now, ev.instance, old(ev.serial));
                   ev.timers == WithTtl(q, id, maxTtl, now', ev.instance, old(ev.serial) + if maxIdle > 0 then 1 else 0)
      ensures Mirrors(w')
           && AutoClient.Next(w, AutoClient.Access(id, connected, TickIdle(w, now), TickTtl(w, now, now')), w')
    {
      w' := w;
      if connected != None {
        assert ReaderIn(w, connected.value) == None;
        Attach(connected.value, w);
        w' := AutoClient.Attach(w, id, connected.value);
        w' := StartBoth(now, now', w');
        OpenStep(w, id, connected.value, TickIdle(w, now), TickTtl(w, now, now'));
      }
    }

    /** Both timers of a new stream. */
    method StartBoth(now: int, now': int, ghost w: AutoClient.World) returns (ghost w': AutoClient.World)
      requires Valid() && Mirrors(w) && ev.present <= now <= now'
      modifies ev`timers, ev`present, ev`serial
      ensures Valid() && Mirrors(w')
      ensures w' == AutoClient.StartTtl(AutoClient.StartIdle(w, id, TickIdle(w, now)), id, TickTtl(w, now, now'))
      ensures var q := WithIdle(old(ev.timers), id, maxIdle, now, ev.instance, old(ev.serial));
              ev.timers == WithTtl(q, id, maxTtl, now', ev.instance, old(ev.serial) + if maxIdle > 0 then 1 else 0)
    {
      StartIdle(now, w);
      w' := AutoClient.StartIdle(w, id, TickIdle(w, now));
      StartTtl(now', w');
      w' := AutoClient.StartTtl(w', id, TickTtl(w, now, now'));
    }

    /** What passes before the request of the idle timer, and from then to that of the TTL timer. */
    ghost function TickIdle(w: AutoClient.World, now: int): nat
    {
      Tick(w.present, now)
    }

    ghost function TickTtl(w: AutoClient.World, now: int, now': int): nat
    {
      Tick(if maxIdle > 0 then now else w.present, now')
    }

    /** auto_clnt_close, which is also what auto_clnt_event and auto_clnt_ttl_event do. */
    method Close(ghost w: AutoClient.World) returns (ghost w': AutoClient.World)
      requires Valid() && vstream.Some? && Mirrors(w)
      modifies this, ev
      ensures Valid() && vstream.None? && ev.rmask == old(ev.rmask) - {old(vstream).value}
              && ev.instance == old(ev.instance)
      ensures forall t :: t in ev.timers <==>
                t in old(ev.timers) && !SameKey(t, AutoClient.IDLE, id) && !SameKey(t, AutoClient.TTL, id)
      ensures AutoClient.IsOpen(w, id) && w' == AutoClient.Close(w, id) && Mirrors(w')
    {
      w' := AutoClient.Close(w, id);
      ghost var slots, mask := ev.fdtable, ev.rmask;
      ev.DisableReadWrite(vstream.value);
      CancelValid(ev.timers, AutoClient.IDLE, id, ev.instance, ev.serial);
      var _ := ev.Cancel(AutoClient.IDLE, id);
      CancelValid(ev.timers, AutoClient.TTL, id, ev.instance, ev.serial);
      var _ := ev.Cancel(AutoClient.TTL, id);
      vstream := None;
      forall x: nat ensures Reader(ev.fdtable, ev.rmask, x) == ReaderIn(w', x) {
        assert Reader(slots, mask, x) == ReaderIn(w, x);
      }
    }

    /** auto_clnt_access: restarts the idle timer of an open stream, never its TTL timer. */
    method Access(connected: Stream, now: int, now': int, ghost w: AutoClient.World)
        returns (stream: Stream, ghost w': AutoClient.World)
      requires Valid() && (connected.Some? ==> connected.value !in ev.xmask)
      requires Mirrors(w) && ev.present <= now <= now'
      modifies this, ev
      ensures Valid() && stream == vstream && stream == (if old(vstream).None? then connected else old(vstream))
      ensures old(vstream).None? && connected.None? ==> ev.timers == old(ev.timers) && ev.rmask == old(ev.rmask)
      ensures old(vstream).None? && connected.Some? ==>
                && ev.rmask == old(ev.rmask) + {connected.value}
                && ev.fdtable[connected.value] == Handler(AutoClient.IDLE, id)
                && var q := WithIdle(old(ev.timers), id, maxIdle, now, ev.instance, old(ev.serial));
                   ev.timers == WithTtl(q, id, maxTtl, now', ev.instance, old(ev.serial) + if maxIdle > 0 then 1 else 0)
      ensures old(vstream).Some? ==>
                && ev.rmask == old(ev.rmask)
                && ev.timers == WithIdle(old(ev.timers), id, maxIdle, now, ev.instance, old(ev.serial))
                && forall t :: t in old(ev.timers) && SameKey(t, AutoClient.TTL, id) ==> t in ev.timers
      ensures Mirrors(w')
           && AutoClient.Next(w, AutoClient.Access(id, connected, TickIdle(w, now), TickTtl(w, now, now')), w')
    {
      if vstream == None {
        w' := Open(connected, now, now', w);
      } else {
        if maxIdle > 0 {
          RequestValid(ev.timers, Timer(AutoClient.IDLE, id, now + maxIdle, ev.instance, ev.serial), ev.instance);
        }
        assert connected.Some? ==> ReaderIn(w, connected.value) == None;
        StartIdle(now, w);
        w' := AutoClient.StartIdle(w, id, TickIdle(w, now));
      }
      stream := vstream;
    }

    /** auto_clnt_recover */
    method Recover(ghost w: AutoClient.World) returns (ghost w': AutoClient.World)
      requires Valid() && Mirrors(w)
      modifies this, ev
      ensures Valid() && vstream.None? && ev.instance == old(ev.instance)
      ensures old(vstream).None? ==> ev.timers == old(ev.timers) && ev.rmask == old(ev.rmask)
      ensures old(vstream).Some? ==>
                && ev.rmask == old(ev.rmask) - {old(vstream).value}
                && forall t :: t in ev.timers <==>
                     t in old(ev.timers) && !SameKey(t, AutoClient.IDLE, id) && !SameKey(t, AutoClient.TTL, id)
      ensures AutoClient.Next(w, AutoClient.Recover(id), w') && Mirrors(w')
    {
      w' := w;
      if vstream != None {
        w' := Close(w);
      }
    }
  }
}
