/**
 The cooperative file update protocol of util/edit_file.c, as a transition system: any
 number of processes that open, lock, re-check, write, rename and clean up, one step at a
 time, in any order, and that may die before any step.  A step is a system call, or the two
 calls that compare the open file with the temporary name.

 The file system is reduced to the two path names the protocol uses.  An inode also
 counts the links it has under other names.
 */
module EditFile {
  import opened Wrappers

  type Process = nat
  type Ino = nat
  type Bytes = seq<nat>

  /** S_IRUSR | S_IWUSR */
  const EDIT_FILE_MODE: nat := 0x180

  /** `dirty`: a system crash may still change what is stored. */
  datatype Inode = Inode(regular: bool, mode: nat, content: Bytes, dirty: bool, otherLinks: nat)

  /** Where a process is.  Apart from `Idle`, each state names the inode of the open output file. */
  datatype Pc =
    | Idle
    | Opened(ino: Ino)                // opened under the temporary name, waiting for the lock
    | Locked(ino: Ino)                // has the lock, will stat the temporary name
    | BackingOut(ino: Ino)            // will close and try again
    | Unfit(ino: Ino)                 // controls the name, will unlink it, close and try again
    | Fit(ino: Ino)                   // controls the name, will truncate the file
    | Editing(ino: Ino)               // edit_file_open() has returned
    | Flushed(ino: Ino, data: Bytes)  // edit_file_close() has flushed the stream: the file holds `data`
    | Chmodded(ino: Ino, data: Bytes) // ... and set the final permissions
    | Synced(ino: Ino, data: Bytes)   // ... and forced the file to disk
    | Renamed(ino: Ino)               // ... and renamed it; will close
    | Cleaning(ino: Ino)              // edit_file_cleanup() will unlink the temporary name
    | Cleaned(ino: Ino)               // ... has done so; will close, which may still write

  datatype State = State(tmp: Option<Ino>, fin: Option<Ino>, inodes: map<Ino, Inode>, locks: map<Ino, Process>,
    pcs: map<Process, Pc>)

  function At(s: State, p: Process): Pc
  {
    if p in s.pcs then s.pcs[p] else Idle
  }

  datatype Event =
    | Open(p: Process)
    | Create(p: Process, ino: Ino)
    | Lock(p: Process)
    | StatDiffers(p: Process)
    | StatUnfit(p: Process)
    | StatFit(p: Process)
    | UnlinkUnfit(p: Process)
    | CloseAndRetry(p: Process)
    | Truncate(p: Process)
    | Write(p: Process, data: Bytes)
    | Flush(p: Process, data: Bytes)
    | Chmod(p: Process, mode: nat)
    | Sync(p: Process)
    | Rename(p: Process)
    | CloseRenamed(p: Process)
    | GiveUp(p: Process)
    | UnlinkTmp(p: Process)
    | CloseCleaned(p: Process, data: Bytes)
    | Die(p: Process)
    | DieRenaming(p: Process)
    | SystemCrash(lost: map<Ino, Inode>)

  // ------------------------------------------------------------ system calls

  function LinkCount(s: State, i: Ino): nat
  {
    (if s.tmp == Some(i) then 1 else 0) + (if s.fin == Some(i) then 1 else 0) +
    (if i in s.inodes then s.inodes[i].otherLinks else 0)
  }

  /** An inode number is in use while some name or some open file refers to it. */
  predicate InUse(s: State, i: Ino)
  {
    LinkCount(s, i) > 0 || exists p :: p in s.pcs && s.pcs[p] != Idle && s.pcs[p].ino == i
  }

  /** Line 282-287: a file that edit_file_open() refuses to reuse. */
  predicate IsUnfit(s: State, i: Ino)
  {
    i in s.inodes && (!s.inodes[i].regular || LinkCount(s, i) > 1 || s.inodes[i].mode != EDIT_FILE_MODE)
  }

  function Goto(s: State, p: Process, pc: Pc): State
  {
    s.(pcs := s.pcs[p := pc])
  }

  function SetInode(s: State, i: Ino, n: Inode): State
  {
    s.(inodes := s.inodes[i := n])
  }

  function SetContent(s: State, i: Ino, data: Bytes): State
  {
    if i in s.inodes then SetInode(s, i, s.inodes[i].(content := data, dirty := true)) else s
  }

  /** Closing the file, or dying: the lock goes. */
  function Closed(s: State, p: Process): State
  {
    Goto(s, p, Idle).(locks := map i | i in s.locks && s.locks[i] != p :: s.locks[i])
  }

  /** One step of the protocol. */
  predicate Next(s: State, e: Event, s': State)
  {
    match e
    case Open(p) => At(s, p) == Idle && s.tmp.Some? && s' == Goto(s, p, Opened(s.tmp.value))
    case Create(p, i) =>
      && At(s, p) == Idle && s.tmp.None? && !InUse(s, i)
      && s' == Goto(SetInode(s, i, Inode(true, EDIT_FILE_MODE, [], true, 0)), p, Opened(i)).(tmp := Some(i))
    case Lock(p) =>
      && At(s, p).Opened? && At(s, p).ino !in s.locks
      && s' == Goto(s, p, Locked(At(s, p).ino)).(locks := s.locks[At(s, p).ino := p])
    case StatDiffers(p) => At(s, p).Locked? && s.tmp != Some(At(s, p).ino) && s' == Goto(s, p, BackingOut(At(s, p).ino))
    case StatUnfit(p) =>
      At(s, p).Locked? && s.tmp == Some(At(s, p).ino) && IsUnfit(s, At(s, p).ino)
        && s' == Goto(s, p, Unfit(At(s, p).ino))
    case StatFit(p) =>
      At(s, p).Locked? && s.tmp == Some(At(s, p).ino) && !IsUnfit(s, At(s, p).ino)
        && s' == Goto(s, p, Fit(At(s, p).ino))
    case UnlinkUnfit(p) => At(s, p).Unfit? && s' == Goto(s, p, BackingOut(At(s, p).ino)).(tmp := None)
    case CloseAndRetry(p) => At(s, p).BackingOut? && s' == Closed(s, p)
    case Truncate(p) => At(s, p).Fit? && s' == Goto(SetContent(s, At(s, p).ino, []), p, Editing(At(s, p).ino))
    case Write(p, data) => At(s, p).Editing? && s' == SetContent(s, At(s, p).ino, data)
    case Flush(p, data) =>
      At(s, p).Editing? && s' == Goto(SetContent(s, At(s, p).ino, data), p, Flushed(At(s, p).ino, data))
    case Chmod(p, mode) =>
      && At(s, p).Flushed? && At(s, p).ino in s.inodes
      && s' == Goto(SetInode(s, At(s, p).ino, s.inodes[At(s, p).ino].(mode := mode, dirty := true)), p,
        Chmodded(At(s, p).ino, At(s, p).data))
    case Sync(p) =>
      && At(s, p).Chmodded? && At(s, p).ino in s.inodes
      && s' == Goto(SetInode(s, At(s, p).ino, s.inodes[At(s, p).ino].(dirty := false)), p,
        Synced(At(s, p).ino, At(s, p).data))
    case Rename(p) => At(s, p).Synced? && s' == Goto(s, p, Renamed(At(s, p).ino)).(fin := s.tmp, tmp := None)
    case CloseRenamed(p) => At(s, p).Renamed? && s' == Closed(s, p)
    case GiveUp(p) =>
      && (At(s, p).Editing? || At(s, p).Flushed? || At(s, p).Chmodded? || At(s, p).Synced?)
      && s' == Goto(s, p, Cleaning(At(s, p).ino))
    case UnlinkTmp(p) => At(s, p).Cleaning? && s' == Goto(s, p, Cleaned(At(s, p).ino)).(tmp := None)
    case CloseCleaned(p, data) => At(s, p).Cleaned? && s' == Closed(SetContent(s, At(s, p).ino, data), p)
    case Die(p) => s' == Closed(s, p)
    case DieRenaming(p) => At(s, p).Synced? && s' == Closed(s.(fin := s.tmp), p)
    case SystemCrash(lost) =>
      && lost.Keys == s.inodes.Keys
      && (forall i :: i in lost && !s.inodes[i].dirty ==> lost[i] == s.inodes[i])
      && (forall i :: i in lost ==> lost[i].otherLinks == s.inodes[i].otherLinks)
      && s' == State(s.tmp, s.fin, lost, map[], map[])
  }

  /** Before the first process starts: any leftovers, even one file under both names, but no open files. */
  predicate Init(s: State)
  {
    && s.locks == map[] && s.pcs == map[]
    && (s.tmp.Some? ==> s.tmp.value in s.inodes)
    && (s.fin.Some? ==> s.fin.value in s.inodes && !s.inodes[s.fin.value].dirty)
  }

  // -------------------------------------------------------------- invariant

  /** Holds the lock on the inode it has open. */
  predicate HasLock(pc: Pc)
  {
    pc != Idle && !pc.Opened?
  }

  /** Between a successful return of edit_file_open() and the process's own rename or unlink. */
  predicate Owns(pc: Pc)
  {
    pc.Editing? || pc.Flushed? || pc.Chmodded? || pc.Synced? || pc.Cleaning?
  }

  /** Has found, with the lock, that the temporary name leads to its inode. */
  predicate Controls(pc: Pc)
  {
    pc.Unfit? || pc.Fit? || Owns(pc)
  }

  /** May still write to its inode. */
  predicate MayWrite(pc: Pc)
  {
    pc.Fit? || Owns(pc) || pc.Cleaned?
  }

  predicate ProcessOk(s: State, p: Process)
  {
    var pc := At(s, p);
    && (HasLock(pc) ==> pc.ino in s.locks && s.locks[pc.ino] == p)
    && (pc != Idle ==> pc.ino in s.inodes)
    && (Controls(pc) ==> s.tmp == Some(pc.ino))
    && (MayWrite(pc) ==> s.fin != Some(pc.ino))
    && (pc.Cleaned? ==> s.tmp != Some(pc.ino))
    && (pc.Flushed? || pc.Chmodded? || pc.Synced? ==> s.inodes[pc.ino].content == pc.data)
    && (pc.Synced? ==> !s.inodes[pc.ino].dirty)
  }

  ghost predicate Inv(s: State)
  {
    (forall p :: ProcessOk(s, p)) && NamesOk(s) && LocksOk(s)
  }

  lemma InitInv(s: State)
    requires Init(s)
    ensures Inv(s)
  {
  }

  /** The steps of edit_file_open(). */
  predicate IsOpening(e: Event)
  {
    || e.Open? || e.Create? || e.Lock? || e.StatDiffers? || e.StatUnfit? || e.StatFit?
    || e.UnlinkUnfit? || e.CloseAndRetry? || e.Truncate?
  }

  /** The steps of the application and of a successful edit_file_close(). */
  predicate IsEditing(e: Event)
  {
    e.Write? || e.Flush? || e.Chmod? || e.Sync? || e.Rename? || e.CloseRenamed?
  }

  lemma CreatingProcess(s: State, e: Event, s': State, q: Process)
    requires Inv(s) && Next(s, e, s') && e.Create?
    ensures ProcessOk(s', q)
  {
    assert ProcessOk(s, q) && !InUse(s, e.ino);
    assert q in s.pcs ==> At(s, q) == Idle || At(s, q).ino != e.ino;
  }

  lemma OpeningProcess(s: State, e: Event, s': State, q: Process)
    requires Inv(s) && Next(s, e, s') && IsOpening(e) && !e.Create?
    ensures ProcessOk(s', q)
  {
    assert ProcessOk(s, q) && ProcessOk(s, e.p);
  }

  lemma EditingProcess(s: State, e: Event, s': State, q: Process)
    requires Inv(s) && Next(s, e, s') && IsEditing(e)
    ensures ProcessOk(s', q)
  {
    assert ProcessOk(s, q) && ProcessOk(s, e.p);
  }

  lemma EndingProcess(s: State, e: Event, s': State, q: Process)
    requires Inv(s) && Next(s, e, s') && !IsOpening(e) && !IsEditing(e)
    ensures ProcessOk(s', q)
  {
    assert ProcessOk(s, q);
    assert !e.SystemCrash? ==> ProcessOk(s, e.p);
  }

  predicate NamesOk(s: State)
  {
    && (s.tmp.Some? ==> s.tmp.value in s.inodes)
    && (s.fin.Some? ==> s.fin.value in s.inodes && !s.inodes[s.fin.value].dirty)
  }

  predicate LocksOk(s: State)
  {
    forall i :: i in s.locks ==> HasLock(At(s, s.locks[i])) && At(s, s.locks[i]).ino == i
  }

  lemma NextNames(s: State, e: Event, s': State)
    requires Inv(s) && Next(s, e, s')
    ensures NamesOk(s')
  {
    assert !e.SystemCrash? ==> ProcessOk(s, e.p);
  }

  lemma NextLocks(s: State, e: Event, s': State)
    requires Inv(s) && Next(s, e, s')
    ensures LocksOk(s')
  {
    assert !e.SystemCrash? ==> ProcessOk(s, e.p);
    forall i | i in s'.locks ensures HasLock(At(s', s'.locks[i])) && At(s', s'.locks[i]).ino == i {
      assert !e.Lock? ==> i in s.locks && s.locks[i] == s'.locks[i];
    }
  }

  lemma NextInv(s: State, e: Event, s': State)
    requires Inv(s) && Next(s, e, s')
    ensures Inv(s')
  {
    forall q ensures ProcessOk(s', q) {
      if e.Create? {
        CreatingProcess(s, e, s', q);
      } else if IsOpening(e) {
        OpeningProcess(s, e, s', q);
      } else if IsEditing(e) {
        EditingProcess(s, e, s', q);
      } else {
        EndingProcess(s, e, s', q);
      }
    }
    NextNames(s, e, s');
    NextLocks(s, e, s');
  }

  // ------------------------------------------------------- single-step results

  /** The final name's file is never truncated, written or damaged, by any step of any process. */
  lemma FinalUntouched(s: State, e: Event, s': State)
    requires Inv(s) && Next(s, e, s') && s.fin.Some?
    ensures s.fin.value in s'.inodes && s'.inodes[s.fin.value] == s.inodes[s.fin.value]
  {
    assert !e.SystemCrash? ==> ProcessOk(s, e.p);
  }

  /** The final name changes only when a process renames a file it has flushed and synced. */
  lemma FinalReplaced(s: State, e: Event, s': State)
    requires Inv(s) && Next(s, e, s') && s'.fin != s.fin
    ensures (e.Rename? || e.DieRenaming?) && At(s, e.p).Synced?
    ensures s'.fin == Some(At(s, e.p).ino)
    ensures At(s, e.p).ino in s'.inodes && s'.inodes[At(s, e.p).ino].content == At(s, e.p).data
  {
    assert ProcessOk(s, e.p);
  }

  // ------------------------------------------------------------------- runs

  /** A run: a sequence of states, and the event between each two. */
  predicate Run(states: seq<State>, events: seq<Event>)
  {
    && |states| == |events| + 1 && Init(states[0])
    && forall i :: 0 <= i < |events| ==> Next(states[i], events[i], states[i + 1])
  }

  lemma {:induction false} RunInv(states: seq<State>, events: seq<Event>, n: nat)
    requires Run(states, events) && n < |states|
    ensures Inv(states[n])
  {
    if n == 0 {
      InitInv(states[0]);
    } else {
      RunInv(states, events, n - 1);
      NextInv(states[n - 1], events[n - 1], states[n]);
    }
  }

  /** In every run, at most one process owns the output file; it holds the lock on exactly the inode that
      the temporary name leads to, and that inode is not the final file. */
  lemma OneOwner(states: seq<State>, events: seq<Event>, n: nat, p: Process, q: Process)
    requires Run(states, events) && n < |states| && Owns(At(states[n], p))
    ensures var s, i := states[n], At(states[n], p).ino;
            s.tmp == Some(i) && i in s.locks && s.locks[i] == p && s.fin != Some(i)
    ensures Owns(At(states[n], q)) ==> p == q
  {
    RunInv(states, events, n);
    assert ProcessOk(states[n], p) && ProcessOk(states[n], q);
  }

  predicate HasFlushed(pc: Pc, i: Ino, data: Bytes)
  {
    (pc.Flushed? || pc.Chmodded? || pc.Synced?) && pc.ino == i && pc.data == data
  }

  /** The process `p` flushed `data` to inode `i` at step `k`. */
  predicate FlushedAt(states: seq<State>, events: seq<Event>, k: nat, p: Process, i: Ino, data: Bytes)
  {
    && k < |events| && k < |states| && events[k] == Flush(p, data)
    && At(states[k], p) == Editing(i)
  }

  lemma BecomesFlushed(s: State, e: Event, s': State, p: Process, i: Ino, data: Bytes)
    requires Next(s, e, s') && !HasFlushed(At(s, p), i, data) && HasFlushed(At(s', p), i, data)
    ensures e == Flush(p, data) && At(s, p) == Editing(i)
  {
  }

  /** A process that is about to rename did flush, earlier, what it is about to rename. */
  lemma {:induction false} FlushedBefore(
    states: seq<State>, events: seq<Event>, n: nat, p: Process, i: Ino, data: Bytes)
      returns (k: nat)
    requires Run(states, events) && n < |states| && HasFlushed(At(states[n], p), i, data)
    ensures k < n && FlushedAt(states, events, k, p, i, data)
  {
    if HasFlushed(At(states[n - 1], p), i, data) {
      k := FlushedBefore(states, events, n - 1, p, i, data);
    } else {
      BecomesFlushed(states[n - 1], events[n - 1], states[n], p, i, data);
      k := n - 1;
    }
  }

  /** The content of the final file, at every moment of every run, is what it was at the start or
      what some process had flushed, as a whole, to that inode before. */
  lemma {:induction false} FinalIsWhole(states: seq<State>, events: seq<Event>, n: nat)
    requires Run(states, events) && n < |states| && states[n].fin.Some?
    ensures states[n].fin.value in states[n].inodes
    ensures var i := states[n].fin.value; var data := states[n].inodes[i].content;
            || (states[0].fin == Some(i) && i in states[0].inodes && states[0].inodes[i].content == data)
            || exists k, p :: 0 <= k < n && FlushedAt(states, events, k, p, i, data)
  {
    RunInv(states, events, n);
    if n > 0 {
      var s, e, s' := states[n - 1], events[n - 1], states[n];
      RunInv(states, events, n - 1);
      if s'.fin == s.fin {
        FinalUntouched(s, e, s');
        FinalIsWhole(states, events, n - 1);
      } else {
        FinalReplaced(s, e, s');
        var k := FlushedBefore(states, events, n - 1, e.p, s'.fin.value, At(s, e.p).data);
      }
    }
  }

  // ------------------------------------------------------------- publication

  /** An event of process p, or a machine crash, which ends p. */
  predicate Concerns(e: Event, p: Process)
  {
    e.SystemCrash? || e.p == p
  }

  /** Nothing happens to p from step `from` up to step `to`. */
  predicate Undisturbed(events: seq<Event>, p: Process, from: nat, to: nat)
  {
    to <= |events| && forall k :: from <= k < to ==> !Concerns(events[k], p)
  }

  /** Other processes neither move p nor change the inode that it controls. */
  lemma OwnedUntouched(s: State, e: Event, s': State, p: Process)
    requires Inv(s) && Next(s, e, s') && !Concerns(e, p) && Controls(At(s, p))
    ensures At(s', p) == At(s, p) && At(s, p).ino in s.inodes && At(s, p).ino in s'.inodes
    ensures s'.inodes[At(s, p).ino] == s.inodes[At(s, p).ino]
  {
    assert ProcessOk(s, p) && ProcessOk(s, e.p);
  }

  /** How p comes to have flushed, set the mode, and synced. */
  lemma BecomesPublishable(s: State, e: Event, s': State, p: Process)
    requires Next(s, e, s')
    ensures At(s', p).Flushed? && Concerns(e, p) ==> e == Flush(p, At(s', p).data)
    ensures At(s', p).Chmodded? && Concerns(e, p) ==>
              && e.Chmod? && e.p == p && At(s, p) == Flushed(At(s', p).ino, At(s', p).data)
              && At(s', p).ino in s'.inodes && s'.inodes[At(s', p).ino].mode == e.mode
    ensures At(s', p).Synced? && Concerns(e, p) ==>
              && e == Sync(p) && At(s, p) == Chmodded(At(s', p).ino, At(s', p).data)
              && At(s', p).ino in s.inodes && At(s', p).ino in s'.inodes
              && s'.inodes[At(s', p).ino].mode == s.inodes[At(s', p).ino].mode
    ensures !Concerns(e, p) ==> At(s', p) == At(s, p)
  {
  }

  /** What p did last: it flushed, set the mode and synced, and nothing else since. */
  lemma {:induction false} LastFlush(states: seq<State>, events: seq<Event>, n: nat, p: Process) returns (f: nat)
    requires Run(states, events) && n < |states| && At(states[n], p).Flushed?
    ensures f < n && events[f] == Flush(p, At(states[n], p).data) && Undisturbed(events, p, f + 1, n)
  {
    BecomesPublishable(states[n - 1], events[n - 1], states[n], p);
    if Concerns(events[n - 1], p) {
      f := n - 1;
    } else {
      f := LastFlush(states, events, n - 1, p);
    }
  }

  predicate ModeOf(s: State, p: Process, mode: nat)
  {
    At(s, p) != Idle && At(s, p).ino in s.inodes && s.inodes[At(s, p).ino].mode == mode
  }

  lemma {:induction false} LastChmod(states: seq<State>, events: seq<Event>, n: nat, p: Process)
      returns (f: nat, c: nat)
    requires Run(states, events) && n < |states| && At(states[n], p).Chmodded?
    ensures f < c < n && events[f] == Flush(p, At(states[n], p).data) && events[c].Chmod? && events[c].p == p
    ensures Undisturbed(events, p, f + 1, c) && Undisturbed(events, p, c + 1, n)
    ensures ModeOf(states[n], p, events[c].mode)
  {
    BecomesPublishable(states[n - 1], events[n - 1], states[n], p);
    if Concerns(events[n - 1], p) {
      c := n - 1;
      f := LastFlush(states, events, n - 1, p);
    } else {
      f, c := LastChmod(states, events, n - 1, p);
      RunInv(states, events, n - 1);
      OwnedUntouched(states[n - 1], events[n - 1], states[n], p);
    }
  }

  lemma {:induction false} LastSync(states: seq<State>, events: seq<Event>, n: nat, p: Process)
      returns (f: nat, c: nat, y: nat)
    requires Run(states, events) && n < |states| && At(states[n], p).Synced?
    ensures f < c < y < n && events[f] == Flush(p, At(states[n], p).data) && events[c].Chmod? && events[c].p == p
    ensures events[y] == Sync(p) && Undisturbed(events, p, f + 1, c) && Undisturbed(events, p, c + 1, y)
    ensures Undisturbed(events, p, y + 1, n) && ModeOf(states[n], p, events[c].mode)
  {
    BecomesPublishable(states[n - 1], events[n - 1], states[n], p);
    if Concerns(events[n - 1], p) {
      y := n - 1;
      f, c := LastChmod(states, events, n - 1, p);
    } else {
      f, c, y := LastSync(states, events, n - 1, p);
      RunInv(states, events, n - 1);
      OwnedUntouched(states[n - 1], events[n - 1], states[n], p);
    }
  }

  /** In every run a rename publishes: afterwards the final name leads to the inode that the temporary name led to, and
      that p had open and locked; it holds what p flushed last, with the mode that p set, and is on disk; p did nothing
      else in between.  The temporary name is free, unless p died between the two halves of the rename. */
  lemma RenamePublishes(states: seq<State>, events: seq<Event>, n: nat, p: Process) returns (f: nat, c: nat, y: nat)
    requires Run(states, events) && n < |events| && (events[n] == Rename(p) || events[n] == DieRenaming(p))
    ensures f < c < y < n && events[f].Flush? && events[f].p == p && events[c].Chmod? && events[c].p == p
    ensures events[y] == Sync(p) && Undisturbed(events, p, f + 1, c) && Undisturbed(events, p, c + 1, y)
    ensures Undisturbed(events, p, y + 1, n)
    ensures var s, s' := states[n], states[n + 1];
            && At(s, p) != Idle && s.tmp == s'.fin == Some(At(s, p).ino)
            && At(s, p).ino in s.locks && s.locks[At(s, p).ino] == p
            && s'.tmp == (if events[n].Rename? then None else s.tmp)
            && At(s, p).ino in s'.inodes
            && s'.inodes[At(s, p).ino].content == events[f].data && s'.inodes[At(s, p).ino].mode == events[c].mode
            && !s'.inodes[At(s, p).ino].dirty
  {
    RunInv(states, events, n);
    assert Next(states[n], events[n], states[n + 1]);
    assert ProcessOk(states[n], p);
    f, c, y := LastSync(states, events, n, p);
  }

  /** What was published stays, name, content and mode, until the next rename. */
  lemma {:induction false} StaysPublished(states: seq<State>, events: seq<Event>, m: nat, n: nat)
    requires Run(states, events) && m <= n < |states| && states[m].fin.Some?
    requires forall k :: m <= k < n ==> !events[k].Rename? && !events[k].DieRenaming?
    ensures states[n].fin == states[m].fin
    ensures states[m].fin.value in states[m].inodes && states[m].fin.value in states[n].inodes
    ensures states[n].inodes[states[m].fin.value] == states[m].inodes[states[m].fin.value]
  {
    RunInv(states, events, m);
    if n > m {
      StaysPublished(states, events, m, n - 1);
      RunInv(states, events, n - 1);
      var s, e, s' := states[n - 1], events[n - 1], states[n];
      assert Next(s, e, s');
      FinalUntouched(s, e, s');
      if s'.fin != s.fin {
        FinalReplaced(s, e, s');
      }
    }
  }

  /** A regular file with the temporary mode and no other name. */
  predicate Private(s: State, i: Ino)
  {
    i in s.inodes && s.inodes[i].regular && s.inodes[i].mode == EDIT_FILE_MODE && LinkCount(s, i) == 1
  }

  lemma BecomesFit(s: State, e: Event, s': State, p: Process)
    requires Inv(s) && Next(s, e, s') && At(s', p).Fit? && Concerns(e, p)
    ensures Private(s', At(s', p).ino)
  {
    assert ProcessOk(s, p);
  }

  lemma {:induction false} FitIsPrivate(states: seq<State>, events: seq<Event>, n: nat, p: Process)
    requires Run(states, events) && n < |states| && At(states[n], p).Fit?
    ensures Private(states[n], At(states[n], p).ino)
  {
    RunInv(states, events, n - 1);
    RunInv(states, events, n);
    BecomesPublishable(states[n - 1], events[n - 1], states[n], p);
    if Concerns(events[n - 1], p) {
      BecomesFit(states[n - 1], events[n - 1], states[n], p);
    } else {
      FitIsPrivate(states, events, n - 1, p);
      OwnedUntouched(states[n - 1], events[n - 1], states[n], p);
      assert ProcessOk(states[n - 1], p) && ProcessOk(states[n], p);
    }
  }

  /** In every run, what edit_file_open() returns is an empty regular file with the temporary mode and no other name. */
  lemma OpensEmpty(states: seq<State>, events: seq<Event>, n: nat, p: Process)
    requires Run(states, events) && n < |events| && events[n] == Truncate(p)
    ensures var s' := states[n + 1];
            Owns(At(s', p)) && Private(s', At(s', p).ino) && s'.inodes[At(s', p).ino].content == []
  {
    assert Next(states[n], events[n], states[n + 1]);
    RunInv(states, events, n);
    FitIsPrivate(states, events, n, p);
    assert ProcessOk(states[n], p);
  }

  // --------------------------------------------------------------- recovery

  lemma {:induction false} FreshIno(used: set<Ino>) returns (i: Ino)
    ensures i !in used && forall j :: j in used ==> j < i
    decreases |used|
  {
    if used == {} {
      i := 0;
    } else {
      var j :| j in used;
      var k := FreshIno(used - {j});
      assert forall x :: x in used ==> x == j || x in used - {j};
      i := if j < k then k else j + 1;
    }
  }

  /** A step of p, which neither dies nor gives up. */
  predicate GoesOn(e: Event, p: Process)
  {
    !e.SystemCrash? && e.p == p && !e.Die? && !e.DieRenaming? && !e.GiveUp?
  }

  /** The states and events of one process running alone. */
  predicate Solo(p: Process, states: seq<State>, events: seq<Event>)
  {
    && |states| == |events| + 1
    && forall k :: 0 <= k < |events| ==> Next(states[k], events[k], states[k + 1]) && GoesOn(events[k], p)
  }

  /** All processes have ended or died, and so hold no locks. */
  predicate Quiet(s: State)
  {
    s.locks == map[] && forall p :: p in s.pcs ==> s.pcs[p] == Idle
  }

  predicate LeftoverUnfit(s: State)
  {
    s.tmp.Some? && IsUnfit(s, s.tmp.value)
  }

  /** Process p, alone, is on its way to the output file, or has it. */
  ghost predicate Alone(s: State, p: Process)
  {
    && Inv(s) && (forall q :: q != p ==> At(s, q) == Idle)
    && match At(s, p)
       case Opened(i) => s.tmp == Some(i)
       case Locked(i) => s.tmp == Some(i)
       case BackingOut(_) => s.tmp.None?
       case Renamed(_) => false
       case Cleaned(_) => false
       case _ => true
  }

  /** The number of steps that p still takes. */
  function StepsLeft(s: State, p: Process): nat
  {
    match At(s, p)
    case Idle => if LeftoverUnfit(s) then 9 else 4
    case Opened(_) => if LeftoverUnfit(s) then 8 else 3
    case Locked(_) => if LeftoverUnfit(s) then 7 else 2
    case Unfit(_) => 6
    case BackingOut(_) => 5
    case Fit(_) => 1
    case _ => 0
  }

  /** Whatever p does next, it is one step nearer. */
  lemma OneStepNearer(s: State, e: Event, s': State, p: Process)
    requires Alone(s, p) && StepsLeft(s, p) > 0 && Next(s, e, s') && GoesOn(e, p)
    ensures Alone(s', p) && StepsLeft(s', p) == StepsLeft(s, p) - 1
  {
    NextInv(s, e, s');
    assert ProcessOk(s, p);
    assert forall q :: q != p ==> At(s', q) == At(s, q);
    if e.Create? {
      assert !InUse(s, e.ino) && LinkCount(s', e.ino) == 1;
    }
  }

  /** And there is always something that it can do. */
  lemma NotStuck(s: State, p: Process) returns (e: Event, s': State)
    requires Alone(s, p) && StepsLeft(s, p) > 0
    ensures Next(s, e, s') && GoesOn(e, p)
  {
    var pc := At(s, p);
    match pc
    case Idle =>
      if s.tmp.Some? {
        e, s' := Open(p), Goto(s, p, Opened(s.tmp.value));
      } else {
        var i := FreshIno(s.inodes.Keys);
        NewIno(s, i);
        e, s' := Create(p, i),
          Goto(SetInode(s, i, Inode(true, EDIT_FILE_MODE, [], true, 0)), p, Opened(i)).(tmp := Some(i));
      }
    case Opened(i) =>
      assert LocksOk(s);
      e, s' := Lock(p), Goto(s, p, Locked(i)).(locks := s.locks[i := p]);
    case Locked(i) =>
      if IsUnfit(s, i) {
        e, s' := StatUnfit(p), Goto(s, p, Unfit(i));
      } else {
        e, s' := StatFit(p), Goto(s, p, Fit(i));
      }
    case Unfit(i) => e, s' := UnlinkUnfit(p), Goto(s, p, BackingOut(i)).(tmp := None);
    case BackingOut(_) => e, s' := CloseAndRetry(p), Closed(s, p);
    case Fit(i) => e, s' := Truncate(p), Goto(SetContent(s, i, []), p, Editing(i));
  }

  lemma NewIno(s: State, i: Ino)
    requires Inv(s) && i !in s.inodes
    ensures !InUse(s, i)
  {
    forall q | q in s.pcs && s.pcs[q] != Idle ensures s.pcs[q].ino != i {
      assert ProcessOk(s, q);
    }
  }

  lemma {:induction false} Nearer(s: State, p: Process, states: seq<State>, events: seq<Event>, n: nat)
    requires Alone(s, p) && Solo(p, states, events) && states[0] == s && n < |states| && n <= StepsLeft(s, p)
    ensures Alone(states[n], p) && StepsLeft(states[n], p) == StepsLeft(s, p) - n
  {
    if n > 0 {
      Nearer(s, p, states, events, n - 1);
      OneStepNearer(states[n - 1], events[n - 1], states[n], p);
    }
  }

  /** Whatever earlier processes left behind, a process that then runs alone gets the output file: every run of it can
      go on until it does, and it does so at the ninth step if there is a leftover that it has to remove, and at the
      fourth step otherwise. */
  lemma Recovers(s: State, p: Process, states: seq<State>, events: seq<Event>, n: nat)
    requires Inv(s) && Quiet(s) && Solo(p, states, events) && states[0] == s && n < |states|
    requires n <= if LeftoverUnfit(s) then 9 else 4
    ensures Owns(At(states[n], p)) <==> n == if LeftoverUnfit(s) then 9 else 4
    ensures !Owns(At(states[n], p)) ==> exists e, s' :: Next(states[n], e, s') && GoesOn(e, p)
  {
    assert forall q :: At(s, q) == Idle;
    Nearer(s, p, states, events, n);
    if StepsLeft(states[n], p) > 0 {
      var e, s' := NotStuck(states[n], p);
      assert Next(states[n], e, s') && GoesOn(e, p);
    }
  }
}
