/** Threads on one CPU: the thread table, the run queue behind its panicking lock,
    context switches, `add_task_ptr__`, `reschedule` and the reaper.

    Every operation is cut into the actions between which a timer interrupt can land.
    Only the current thread acts; a context switch is one action, since it runs with
    interrupts off. */
module Threads {

  import opened KernelTypes
  import opened Rotation

  /** `dead` is the tombstone in the saved kernel stack pointer. */
  datatype Task = Task(state: TaskState, dead: bool)

  datatype Pc =
    | Idle
    // add_task_ptr__: first the run queue, then the table
    | Announcing(id: Tid)          // about to lock the run queue
    | AnnounceHeld(id: Tid)        // about to push the id
    | AnnounceDone(id: Tid)        // about to unlock
    | Inserting(id: Tid)           // about to write-lock the table
    | InsertHeld(id: Tid)          // about to insert
    | InsertDone                   // about to unlock
    // reschedule: snapshot of the table, then commit to the queue
    | Snapped(ids: seq<Tid>)       // about to lock the run queue
    | CommitHeld(ids: seq<Tid>)    // reserving space; about to clear and refill
    | CommitDone                   // about to unlock
    // log_all
    | Logging
    | LogHeld
    // cleanup, in the reaper's thread
    | Sweeping
    | Popped(id: Tid)              // about to write-lock the table
    | PoppedHeld(id: Tid)          // about to remove
    | RemoveDone(id: Tid, found: bool) // about to unlock
    | Cleaning(id: Tid)            // about to free the stacks

  datatype State = State(
    tasks: map<Tid, Task>,         // every task ever built
    lut: set<Tid>,                 // ids in the thread table
    tableWriter: Option<Tid>,      // holder of the table's write lock
    queue: seq<Tid>,
    queueLock: Option<Tid>,        // holder of the run queue's lock
    zombies: seq<Tid>,
    cur: Tid,
    pcs: map<Tid, Pc>,
    nextTid: nat,
    panicked: bool)                // some thread waited on the NoBlock lock

  datatype Label =
    | Switch(next: Option<Tid>)    // a context switch and the thread it dispatched, if any
    | Build(id: Tid)               // get_tid and a new task; then add_task_ptr__
    | Reschedule(ids: seq<Tid>)    // take the snapshot
    | Log
    | Proceed                      // the next action of the operation under way
    | Commit                       // clear and refill the run queue
    | Kill(id: Tid)
    | Block(id: Tid)
    | Wake(id: Tid)
    | Sweep                        // enter cleanup
    | Found(id: Tid)               // cleanup's scan meets a zombie
    | Pop(id: Tid)                 // take the next id off the zombie list
    | Remove(id: Tid, found: bool) // lut.remove
    | Clean(id: Tid, freed: bool)  // cleanup_thread; `freed` if the kernel stack was freed
    | SweepEnd

  predicate IsZombie(s: State, id: Tid) {
    id in s.tasks && s.tasks[id].state == Zombie
  }

  /** The ids `switch` accepts: in the table and Ready. */
  function Runnable(s: State): set<Tid> {
    set id | id in s.lut && id in s.tasks && s.tasks[id].state == Ready
  }

  function Goto(s: State, pc: Pc): State {
    s.(pcs := s.pcs[s.cur := pc])
  }

  function SetState(s: State, id: Tid, st: TaskState): State
    requires id in s.tasks
  {
    s.(tasks := s.tasks[id := s.tasks[id].(state := st)])
  }

  /** `lock()` on the run queue: on contention the wait strategy panics. */
  function LockQueue(s: State, pc: Pc): State {
    if s.queueLock.None? then Goto(s, pc).(queueLock := Some(s.cur)) else s.(panicked := true)
  }

  /** `context_switch_local`. */
  ghost predicate SwitchStep(s: State, next: Option<Tid>, s': State) {
    if s.tableWriter.Some? || s.cur !in s.lut || s.cur !in s.tasks then
      next == None && s' == s
    else
      var saved := s.(tasks := s.tasks[s.cur := s.tasks[s.cur].(dead := false)]);
      if s.queueLock.Some? then next == None && s' == saved
      else
        var (d, q) := Rotation.Switch(s.queue, Runnable(s));
        && next == d
        && s' == if d.None? then saved.(queue := q)
                 else (if s.tasks[s.cur].state == Running then SetState(saved, s.cur, Ready) else saved)
                      .(queue := q, cur := d.value)
  }

  ghost predicate ProceedStep(s: State, s': State)
    requires s.cur in s.pcs
  {
    match s.pcs[s.cur]
    case Announcing(id) => s' == LockQueue(s, AnnounceHeld(id))
    case AnnounceHeld(id) => s' == Goto(s, AnnounceDone(id)).(queue := s.queue + [id])
    case AnnounceDone(id) => s' == Goto(s, Inserting(id)).(queueLock := None)
    case Inserting(id) => s.tableWriter.None? && s' == Goto(s, InsertHeld(id)).(tableWriter := Some(s.cur))
    case InsertHeld(id) => s' == Goto(s, InsertDone).(lut := s.lut + {id})
    case InsertDone => s' == Goto(s, Idle).(tableWriter := None)
    case Snapped(ids) => s' == LockQueue(s, CommitHeld(ids))
    case CommitDone => s' == Goto(s, Idle).(queueLock := None)
    case Logging => s' == LockQueue(s, LogHeld)
    case LogHeld => s' == Goto(s, Idle).(queueLock := None)
    case Popped(id) => s.tableWriter.None? && s' == Goto(s, PoppedHeld(id)).(tableWriter := Some(s.cur))
    case RemoveDone(id, found) =>
      s' == Goto(s, if found then Cleaning(id) else Sweeping).(tableWriter := None)
    case _ => false
  }

  /** Operations that start when the current thread is idle. */
  ghost predicate StartStep(reaper: Tid, s: State, l: Label, s': State)
    requires s.cur in s.pcs
  {
    s.pcs[s.cur].Idle? &&
    match l
    case Build(id) =>
      id == s.nextTid &&
      s' == s.(tasks := s.tasks[id := Task(Ready, false)], nextTid := id + 1,
               pcs := s.pcs[id := Idle][s.cur := Announcing(id)])
    case Reschedule(ids) =>
      s.tableWriter.None? && Distinct(ids) && (forall x :: x in ids ==> x in s.lut) &&
      s' == Goto(s, Snapped(ids))
    case Log => s' == Goto(s, Logging)
    case Kill(id) =>
      id in s.lut && id in s.tasks && s' == SetState(s, id, Zombie).(zombies := s.zombies + [id])
    case Block(id) =>
      id in s.lut && id in s.tasks &&
      s' == if s.tasks[id].state == Zombie || s.tasks[id].state == Sleeping then s
            else SetState(s, id, Blocking)
    case Wake(id) =>
      id in s.lut && id in s.tasks &&
      s' == if s.tasks[id].state == Blocking || s.tasks[id].state == Sleeping then SetState(s, id, Ready)
            else s
    case Sweep => s.cur == reaper && s' == Goto(s, Sweeping)
    case _ => false
  }

  /** The reaper's own actions. */
  ghost predicate SweepStep(s: State, l: Label, s': State)
    requires s.cur in s.pcs
  {
    match l
    case Found(id) =>
      s.pcs[s.cur].Sweeping? && id in s.lut && IsZombie(s, id) && s' == s.(zombies := s.zombies + [id])
    case Pop(id) =>
      s.pcs[s.cur].Sweeping? && s.zombies != [] && id == s.zombies[0] &&
      s' == Goto(s, Popped(id)).(zombies := s.zombies[1..])
    case Remove(id, found) =>
      s.pcs[s.cur] == PoppedHeld(id) && found == (id in s.lut) &&
      s' == Goto(s, RemoveDone(id, found)).(lut := s.lut - {id})
    case Clean(id, freed) =>
      s.pcs[s.cur] == Cleaning(id) && id in s.tasks && freed == !s.tasks[id].dead &&
      s' == Goto(s, Sweeping).(tasks := s.tasks[id := s.tasks[id].(dead := true)])
    case SweepEnd => s.pcs[s.cur].Sweeping? && s.zombies == [] && s' == Goto(s, Idle)
    case _ => false
  }

  ghost predicate Next(reaper: Tid, s: State, l: Label, s': State) {
    match l
    case Switch(next) => SwitchStep(s, next, s')
    case Proceed => s.cur in s.pcs && ProceedStep(s, s')
    case Commit =>
      s.cur in s.pcs && s.pcs[s.cur].CommitHeld? &&
      s' == Goto(s, CommitDone).(queue := s.pcs[s.cur].ids)
    case Found(_) => s.cur in s.pcs && SweepStep(s, l, s')
    case Pop(_) => s.cur in s.pcs && SweepStep(s, l, s')
    case Remove(_, _) => s.cur in s.pcs && SweepStep(s, l, s')
    case Clean(_, _) => s.cur in s.pcs && SweepStep(s, l, s')
    case SweepEnd => s.cur in s.pcs && SweepStep(s, l, s')
    case _ => s.cur in s.pcs && StartStep(reaper, s, l, s')
  }

  ghost predicate Init(reaper: Tid, s: State) {
    && s.queueLock == None && s.tableWriter == None && s.zombies == [] && !s.panicked
    && (forall t :: t in s.pcs ==> s.pcs[t] == Idle)
    && (forall t :: t in s.tasks ==> t < s.nextTid && !IsZombie(s, t))
    && s.pcs.Keys == s.tasks.Keys && s.lut <= s.tasks.Keys
    && s.cur in s.lut && reaper in s.lut
    && Distinct(s.queue) && (forall t :: t in s.queue ==> t in s.tasks)
  }

  ghost predicate IsRun(reaper: Tid, states: seq<State>, labels: seq<Label>) {
    && |states| == |labels| + 1 && Init(reaper, states[0])
    && forall i {:trigger StepAt(reaper, states, labels, i)} ::
         0 <= i < |labels| ==> StepAt(reaper, states, labels, i)
  }

  ghost predicate StepAt(reaper: Tid, states: seq<State>, labels: seq<Label>, i: nat)
    requires |states| == |labels| + 1 && i < |labels|
  {
    Next(reaper, states[i], labels[i], states[i + 1])
  }

  // ---------------------------------------------------------------- invariants

  predicate HoldsQueue(pc: Pc) {
    pc.AnnounceHeld? || pc.AnnounceDone? || pc.CommitHeld? || pc.CommitDone? || pc.LogHeld?
  }

  predicate HoldsTable(pc: Pc) {
    pc.InsertHeld? || pc.InsertDone? || pc.PoppedHeld? || pc.RemoveDone?
  }

  /** The id a thread is adding and has not put into the table yet. */
  function Adding(pc: Pc): Option<Tid> {
    match pc
    case Announcing(id) => Some(id)
    case AnnounceHeld(id) => Some(id)
    case AnnounceDone(id) => Some(id)
    case Inserting(id) => Some(id)
    case InsertHeld(id) => Some(id)
    case _ => None
  }

  predicate NotYetQueued(pc: Pc) {
    pc.Announcing? || pc.AnnounceHeld?
  }

  function Snapshot(pc: Pc): seq<Tid> {
    if pc.Snapped? || pc.CommitHeld? then pc.ids else []
  }

  predicate InCleanup(pc: Pc) {
    pc.Sweeping? || pc.Popped? || pc.PoppedHeld? || pc.RemoveDone? || pc.Cleaning?
  }

  /** The id the reaper is working on. */
  function Doomed(pc: Pc): Option<Tid> {
    if pc.Popped? || pc.PoppedHeld? || pc.RemoveDone? || pc.Cleaning? then Some(pc.id) else None
  }

  /** Whoever holds one of the two locks is the current thread. */
  ghost predicate LocksAreCurrent(s: State, t: Tid) {
    t in s.pcs && t != s.cur ==> !HoldsQueue(s.pcs[t]) && !HoldsTable(s.pcs[t])
  }

  /** An id being added is not in the table, and not in the queue before it is pushed. */
  ghost predicate AddingIsNew(s: State, t: Tid) {
    t in s.pcs && Adding(s.pcs[t]).Some? ==>
      var id := Adding(s.pcs[t]).value;
      && id in s.tasks && id !in s.lut && !IsZombie(s, id)
      && (NotYetQueued(s.pcs[t]) ==> id !in s.queue)
  }

  /** An id being added is in no snapshot and is added by one thread only. */
  ghost predicate AddingIsApart(s: State, t: Tid, u: Tid) {
    t in s.pcs && u in s.pcs && Adding(s.pcs[t]).Some? ==>
      && Adding(s.pcs[t]).value !in Snapshot(s.pcs[u])
      && (t != u ==> Adding(s.pcs[t]) != Adding(s.pcs[u]))
  }

  ghost predicate SnapshotIsDistinct(s: State, t: Tid) {
    t in s.pcs ==>
      Distinct(Snapshot(s.pcs[t])) && forall x :: x in Snapshot(s.pcs[t]) ==> x in s.tasks
  }

  /** Only the reaper cleans up, and it handles zombies only. */
  ghost predicate CleansZombies(reaper: Tid, s: State, t: Tid) {
    t in s.pcs && InCleanup(s.pcs[t]) ==>
      t == reaper && (Doomed(s.pcs[t]).Some? ==> IsZombie(s, Doomed(s.pcs[t]).value))
  }

  ghost predicate ThreadInv(reaper: Tid, s: State, t: Tid) {
    LocksAreCurrent(s, t) && AddingIsNew(s, t) && SnapshotIsDistinct(s, t) && CleansZombies(reaper, s, t)
  }

  ghost predicate LockInv(s: State) {
    && s.cur in s.pcs && !s.panicked
    && s.queueLock == (if HoldsQueue(s.pcs[s.cur]) then Some(s.cur) else None)
    && s.tableWriter == (if HoldsTable(s.pcs[s.cur]) then Some(s.cur) else None)
  }

  ghost predicate IdInv(s: State) {
    && s.pcs.Keys == s.tasks.Keys && s.lut <= s.tasks.Keys
    && (forall t :: t in s.tasks ==> t < s.nextTid)
    && Distinct(s.queue) && (forall x :: x in s.queue ==> x in s.tasks)
  }

  /** The current thread stays in the table unless the reaper itself was killed. */
  ghost predicate ReapInv(reaper: Tid, s: State) {
    && (forall z :: z in s.zombies ==> IsZombie(s, z))
    && (IsZombie(s, reaper) || (s.cur in s.lut && reaper in s.lut))
  }

  ghost predicate Inv(reaper: Tid, s: State) {
    && LockInv(s) && IdInv(s) && ReapInv(reaper, s)
    && (forall t {:trigger ThreadInv(reaper, s, t)} :: ThreadInv(reaper, s, t))
    && (forall t, u {:trigger AddingIsApart(s, t, u)} :: AddingIsApart(s, t, u))
  }

  // ---------------------------------------------------------------- every step keeps them

  lemma SwitchKeepsGlobals(reaper: Tid, s: State, next: Option<Tid>, s': State)
    requires LockInv(s) && IdInv(s) && ReapInv(reaper, s) && SwitchStep(s, next, s')
    requires LocksAreCurrent(s, s'.cur)
    ensures LockInv(s') && IdInv(s') && ReapInv(reaper, s')
    ensures s'.pcs == s.pcs && s'.lut == s.lut && s'.tasks.Keys == s.tasks.Keys
    ensures forall x :: x in s'.queue ==> x in s.queue
    ensures forall x :: IsZombie(s', x) == IsZombie(s, x)
    ensures s'.cur != s.cur ==> s.queueLock.None? && s.tableWriter.None?
  {
    SwitchConserves(s.queue, Runnable(s));
    SwitchKeepsDistinct(s.queue, Runnable(s));
  }

  lemma SwitchKeepsInv(reaper: Tid, s: State, next: Option<Tid>, s': State)
    requires Inv(reaper, s) && SwitchStep(s, next, s')
    ensures Inv(reaper, s')
  {
    assert ThreadInv(reaper, s, s'.cur);
    SwitchKeepsGlobals(reaper, s, next, s');
    forall t ensures ThreadInv(reaper, s', t) { assert ThreadInv(reaper, s, t); }
    forall t, u ensures AddingIsApart(s', t, u) { assert AddingIsApart(s, t, u); }
  }

  lemma ProceedKeepsLocks(s: State, s': State)
    requires LockInv(s) && ProceedStep(s, s')
    ensures LockInv(s') && s'.cur == s.cur
  {
  }

  lemma ProceedKeepsIds(reaper: Tid, s: State, s': State)
    requires LockInv(s) && IdInv(s) && ReapInv(reaper, s) && ProceedStep(s, s')
    requires AddingIsNew(s, s.cur)
    ensures IdInv(s') && ReapInv(reaper, s')
  {
    assert s'.tasks == s.tasks && s'.zombies == s.zombies && s.lut <= s'.lut && s'.cur == s.cur;
  }

  lemma ProceedKeepsAdding(s: State, s': State)
    requires LockInv(s) && AddingIsNew(s, s.cur) && ProceedStep(s, s')
    ensures AddingIsNew(s', s.cur)
  {
    assert s'.tasks == s.tasks;
  }

  lemma ProceedKeepsSnapshot(s: State, s': State)
    requires LockInv(s) && SnapshotIsDistinct(s, s.cur) && ProceedStep(s, s')
    ensures SnapshotIsDistinct(s', s.cur)
  {
    assert s'.tasks == s.tasks;
  }

  lemma ProceedKeepsCleaning(reaper: Tid, s: State, s': State)
    requires LockInv(s) && CleansZombies(reaper, s, s.cur) && ProceedStep(s, s')
    ensures CleansZombies(reaper, s', s.cur)
  {
    assert s'.tasks == s.tasks;
  }

  lemma ProceedKeepsSelf(reaper: Tid, s: State, s': State)
    requires LockInv(s) && ThreadInv(reaper, s, s.cur) && ProceedStep(s, s')
    ensures ThreadInv(reaper, s', s.cur)
  {
    ProceedKeepsLocks(s, s');
    ProceedKeepsAdding(s, s');
    ProceedKeepsSnapshot(s, s');
    ProceedKeepsCleaning(reaper, s, s');
  }

  lemma ProceedKeepsOther(reaper: Tid, s: State, s': State, t: Tid)
    requires LockInv(s) && ThreadInv(reaper, s, t) && ProceedStep(s, s') && t != s.cur
    requires AddingIsApart(s, t, s.cur)
    ensures ThreadInv(reaper, s', t)
  {
    assert s'.cur == s.cur && s'.tasks == s.tasks;
    assert t in s.pcs ==> s'.pcs[t] == s.pcs[t];
  }

  lemma ProceedKeepsApart(s: State, s': State, t: Tid, u: Tid)
    requires LockInv(s) && AddingIsApart(s, t, u) && ProceedStep(s, s')
    ensures AddingIsApart(s', t, u)
  {
  }

  lemma ProceedKeepsInv(reaper: Tid, s: State, s': State)
    requires Inv(reaper, s) && ProceedStep(s, s')
    ensures Inv(reaper, s')
  {
    assert ThreadInv(reaper, s, s.cur);
    ProceedKeepsLocks(s, s');
    ProceedKeepsIds(reaper, s, s');
    forall t ensures ThreadInv(reaper, s', t) {
      assert ThreadInv(reaper, s, t) && AddingIsApart(s, t, s.cur);
      if t == s.cur { ProceedKeepsSelf(reaper, s, s'); } else { ProceedKeepsOther(reaper, s, s', t); }
    }
    forall t, u ensures AddingIsApart(s', t, u) {
      assert AddingIsApart(s, t, u);
      ProceedKeepsApart(s, s', t, u);
    }
  }

  lemma CommitKeepsInv(reaper: Tid, s: State, s': State)
    requires Inv(reaper, s) && s.pcs[s.cur].CommitHeld?
    requires s' == Goto(s, CommitDone).(queue := s.pcs[s.cur].ids)
    ensures Inv(reaper, s')
  {
    assert ThreadInv(reaper, s, s.cur);
    forall t ensures ThreadInv(reaper, s', t) {
      assert ThreadInv(reaper, s, t) && AddingIsApart(s, t, s.cur);
    }
    forall t, u ensures AddingIsApart(s', t, u) { assert AddingIsApart(s, t, u); }
  }

  lemma SweepKeepsGlobals(reaper: Tid, s: State, l: Label, s': State)
    requires LockInv(s) && IdInv(s) && ReapInv(reaper, s) && SweepStep(s, l, s')
    requires CleansZombies(reaper, s, s.cur)
    ensures LockInv(s') && IdInv(s') && ReapInv(reaper, s')
  {
    assert forall x :: IsZombie(s', x) == IsZombie(s, x);
    assert forall z :: z in s'.zombies ==> z in s.zombies || IsZombie(s, z);
  }

  lemma SweepKeepsThread(reaper: Tid, s: State, l: Label, s': State, t: Tid)
    requires LockInv(s) && ReapInv(reaper, s) && SweepStep(s, l, s')
    requires ThreadInv(reaper, s, s.cur) && ThreadInv(reaper, s, t)
    ensures ThreadInv(reaper, s', t)
  {
    assert forall x :: IsZombie(s', x) == IsZombie(s, x);
    assert s.zombies != [] ==> s.zombies[0] in s.zombies;
  }

  lemma SweepKeepsInv(reaper: Tid, s: State, l: Label, s': State)
    requires Inv(reaper, s) && SweepStep(s, l, s')
    ensures Inv(reaper, s')
  {
    assert ThreadInv(reaper, s, s.cur);
    SweepKeepsGlobals(reaper, s, l, s');
    forall t ensures ThreadInv(reaper, s', t) {
      assert ThreadInv(reaper, s, t);
      SweepKeepsThread(reaper, s, l, s', t);
    }
    forall t, u ensures AddingIsApart(s', t, u) { assert AddingIsApart(s, t, u); }
  }

  lemma StartKeepsGlobals(reaper: Tid, s: State, l: Label, s': State)
    requires LockInv(s) && IdInv(s) && ReapInv(reaper, s) && StartStep(reaper, s, l, s')
    ensures LockInv(s') && IdInv(s') && ReapInv(reaper, s')
  {
  }

  lemma StartKeepsThread(reaper: Tid, s: State, l: Label, s': State, t: Tid)
    requires LockInv(s) && IdInv(s) && ThreadInv(reaper, s, t) && StartStep(reaper, s, l, s')
    ensures ThreadInv(reaper, s', t)
  {
  }

  lemma StartKeepsApart(reaper: Tid, s: State, l: Label, s': State, t: Tid, u: Tid)
    requires LockInv(s) && IdInv(s) && AddingIsApart(s, t, u) && StartStep(reaper, s, l, s')
    requires ThreadInv(reaper, s, t) && ThreadInv(reaper, s, u)
    ensures AddingIsApart(s', t, u)
  {
  }

  lemma StartKeepsInv(reaper: Tid, s: State, l: Label, s': State)
    requires Inv(reaper, s) && StartStep(reaper, s, l, s')
    ensures Inv(reaper, s')
  {
    StartKeepsGlobals(reaper, s, l, s');
    forall t ensures ThreadInv(reaper, s', t) {
      assert ThreadInv(reaper, s, t);
      StartKeepsThread(reaper, s, l, s', t);
    }
    forall t, u ensures AddingIsApart(s', t, u) {
      assert ThreadInv(reaper, s, t) && ThreadInv(reaper, s, u) && AddingIsApart(s, t, u);
      StartKeepsApart(reaper, s, l, s', t, u);
    }
  }

  predicate IsSweepLabel(l: Label) {
    l.Found? || l.Pop? || l.Remove? || l.Clean? || l.SweepEnd?
  }

  lemma StepKeepsInv(reaper: Tid, s: State, l: Label, s': State)
    requires Inv(reaper, s) && Next(reaper, s, l, s')
    ensures Inv(reaper, s')
  {
    if l.Switch? { SwitchKeepsInv(reaper, s, l.next, s'); }
    else if l.Proceed? { ProceedKeepsInv(reaper, s, s'); }
    else if l.Commit? { CommitKeepsInv(reaper, s, s'); }
    else if IsSweepLabel(l) { SweepKeepsInv(reaper, s, l, s'); }
    else { StartKeepsInv(reaper, s, l, s'); }
  }

  lemma {:induction false} RunKeepsInv(reaper: Tid, states: seq<State>, labels: seq<Label>, i: nat)
    requires IsRun(reaper, states, labels) && i < |states|
    ensures Inv(reaper, states[i])
  {
    if i > 0 {
      RunKeepsInv(reaper, states, labels, i - 1);
      assert StepAt(reaper, states, labels, i - 1);
      StepKeepsInv(reaper, states[i - 1], labels[i - 1], states[i]);
    }
  }

  // ---------------------------------------------------------------- the lock that must not wait

  predicate WantsQueue(pc: Pc) {
    pc.Announcing? || pc.Snapped? || pc.Logging?
  }

  /** In every run, a thread that goes for the run queue's lock finds it free, and the
      panicking wait is never reached. */
  lemma NoBlockIsNeverReached(reaper: Tid, states: seq<State>, labels: seq<Label>, i: nat)
    requires IsRun(reaper, states, labels) && i < |states|
    ensures !states[i].panicked
    ensures var s := states[i]; s.cur in s.pcs && (WantsQueue(s.pcs[s.cur]) ==> s.queueLock.None?)
    ensures states[i].queueLock.Some? ==> states[i].queueLock.value == states[i].cur
  {
    RunKeepsInv(reaper, states, labels, i);
  }

  /** The reason: while a lock is held, a context switch returns to its holder and leaves
      the queue as it is. */
  lemma HeldLockKeepsTheCpu(reaper: Tid, s: State, next: Option<Tid>, s': State)
    requires Next(reaper, s, Switch(next), s') && (s.queueLock.Some? || s.tableWriter.Some?)
    ensures next.None? && s'.cur == s.cur && s'.queue == s.queue
  {
  }

  // ---------------------------------------------------------------- the queue

  /** In every run the run queue holds no thread id twice. */
  lemma QueueHoldsNoIdTwice(reaper: Tid, states: seq<State>, labels: seq<Label>, i: nat)
    requires IsRun(reaper, states, labels) && i < |states|
    ensures Distinct(states[i].queue)
  {
    RunKeepsInv(reaper, states, labels, i);
  }

  /** A context switch takes from the queue only ids that are absent from the table or
      not Ready, and dispatches an id that is in the table and Ready. */
  lemma SwitchDropsOnlyUnrunnable(reaper: Tid, s: State, next: Option<Tid>, s': State)
    requires Next(reaper, s, Switch(next), s')
    ensures forall id :: id in s.queue && id !in s'.queue ==> id !in Runnable(s)
    ensures forall id :: id in s'.queue ==> id in s.queue
    ensures next.Some? ==> next.value in s.queue && next.value in Runnable(s) && s'.cur == next.value
  {
    SwitchConserves(s.queue, Runnable(s));
  }

  lemma SwitchRotates(reaper: Tid, s: State, next: Option<Tid>, s': State)
    requires Next(reaper, s, Switch(next), s')
    ensures (next, s'.queue) == Rotation.Switch(s.queue, Runnable(s)) || (next.None? && s'.queue == s.queue)
  {
  }

  /** A thread that is no longer Ready leaves the CPU with its yield if and only if some
      runnable thread is queued; otherwise the switch returns to it. */
  lemma YieldSwitchesAwayIff(reaper: Tid, s: State, next: Option<Tid>, s': State)
    requires Inv(reaper, s) && Next(reaper, s, Switch(next), s') && s.cur in s.lut && s.cur !in Runnable(s)
    requires s.queueLock.None? && s.tableWriter.None?
    ensures s'.cur != s.cur <==> exists a :: a in s.queue && a in Runnable(s)
  {
    SwitchConserves(s.queue, Runnable(s));
  }

  /** What the other steps can do to the queue. */
  lemma QueueOnlyGrowsOutsideSwitch(reaper: Tid, s: State, l: Label, s': State)
    requires Inv(reaper, s) && Next(reaper, s, l, s') && !l.Switch? && !l.Commit?
    ensures s'.queue == s.queue ||
            (s.pcs[s.cur].AnnounceHeld? && s.pcs[s.cur].id !in s.queue && s'.queue == s.queue + [s.pcs[s.cur].id])
  {
    assert ThreadInv(reaper, s, s.cur);
  }

  /** The number of context switches that dispatched a thread. */
  function Dispatches(labels: seq<Label>): nat {
    if labels == [] then 0
    else (if labels[0].Switch? && labels[0].next.Some? then 1 else 0) + Dispatches(labels[1..])
  }

  /** Between `i` and `j` no reschedule commits, and `a` can run in every state. */
  ghost predicate Undisturbed(states: seq<State>, labels: seq<Label>, i: nat, j: nat, a: Tid)
    requires |states| == |labels| + 1 && i <= j <= |labels|
  {
    && (forall x :: i <= x < j ==> !labels[x].Commit?)
    && (forall x :: i <= x <= j ==> a in Runnable(states[x]))
  }

  /** Fairness: a thread at position `p` that stays runnable is dispatched within p + 1
      successful switches. */
  lemma {:induction false} DispatchedInTurn(reaper: Tid, states: seq<State>, labels: seq<Label>,
                                            i: nat, j: nat, p: nat) returns (k: nat)
    requires IsRun(reaper, states, labels) && i <= j <= |labels| && p < |states[i].queue|
    requires Undisturbed(states, labels, i, j, states[i].queue[p])
    requires Dispatches(labels[i..j]) > p
    ensures i <= k < j && labels[k] == Switch(Some(states[i].queue[p]))
    decreases j - i
  {
    var a := states[i].queue[p];
    var s, l, s' := states[i], labels[i], states[i + 1];
    assert labels[i..j][1..] == labels[i + 1..j];
    assert StepAt(reaper, states, labels, i) && a in Runnable(s);
    if l.Switch? && l.next.Some? {
      var p' := SwitchAdvances(s.queue, Runnable(s), p);
      if l.next == Some(a) { return i; }
      k := DispatchedInTurn(reaper, states, labels, i + 1, j, p');
    } else {
      if l.Switch? {
        var p' := SwitchAdvances(s.queue, Runnable(s), p);
        assert s'.queue == s.queue;
      } else {
        RunKeepsInv(reaper, states, labels, i);
        QueueOnlyGrowsOutsideSwitch(reaper, s, l, s');
      }
      k := DispatchedInTurn(reaper, states, labels, i + 1, j, p);
    }
  }

  ghost predicate IsNotAdding(s: State, t: Tid, id: Tid) {
    t in s.pcs ==> Adding(s.pcs[t]) != Some(id)
  }

  /** The id is past its admission: no thread is adding it, and none ever will again. */
  ghost predicate IsSettled(s: State, id: Tid) {
    id in s.tasks && forall t {:trigger IsNotAdding(s, t, id)} :: IsNotAdding(s, t, id)
  }

  lemma StartAddsOnlyNewId(reaper: Tid, s: State, l: Label, s': State, t: Tid, id: Tid)
    requires s.cur in s.pcs && StartStep(reaper, s, l, s') && l != Build(id) && IsNotAdding(s, t, id)
    ensures IsNotAdding(s', t, id)
  {
  }

  lemma ProceedAddsNothing(s: State, s': State, t: Tid, id: Tid)
    requires s.cur in s.pcs && ProceedStep(s, s') && IsNotAdding(s, t, id)
    ensures IsNotAdding(s', t, id) && s'.tasks == s.tasks
  {
  }

  lemma StepKeepsSettled(reaper: Tid, s: State, l: Label, s': State, id: Tid)
    requires IdInv(s) && Next(reaper, s, l, s') && IsSettled(s, id)
    ensures IsSettled(s', id)
  {
    forall t ensures IsNotAdding(s', t, id) {
      assert IsNotAdding(s, t, id);
      if l.Proceed? { ProceedAddsNothing(s, s', t, id); }
      else if !l.Switch? && !l.Commit? && !IsSweepLabel(l) { StartAddsOnlyNewId(reaper, s, l, s', t, id); }
    }
    if l.Proceed? { ProceedAddsNothing(s, s', 0, id); }
  }

  lemma TableIsSettled(reaper: Tid, s: State, id: Tid)
    requires Inv(reaper, s) && id in s.lut
    ensures IsSettled(s, id)
  {
    forall t ensures IsNotAdding(s, t, id) { assert ThreadInv(reaper, s, t); }
  }

  /** A settled id that dropped out of the queue comes back only by a reschedule. */
  lemma {:induction false} AbsentStaysAbsent(reaper: Tid, states: seq<State>, labels: seq<Label>,
                                             i: nat, j: nat, b: Tid)
    requires IsRun(reaper, states, labels) && i <= j <= |labels|
    requires forall x :: i <= x < j ==> !labels[x].Commit?
    requires IsSettled(states[i], b) && b !in states[i].queue
    ensures b !in states[j].queue
    decreases j - i
  {
    if i < j {
      RunKeepsInv(reaper, states, labels, i);
      var s, l, s' := states[i], labels[i], states[i + 1];
      assert StepAt(reaper, states, labels, i);
      StepKeepsSettled(reaper, s, l, s', b);
      if l.Switch? { SwitchDropsOnlyUnrunnable(reaper, s, l.next, s'); }
      else {
        QueueOnlyGrowsOutsideSwitch(reaper, s, l, s');
        assert IsNotAdding(s, s.cur, b);
      }
      AbsentStaysAbsent(reaper, states, labels, i + 1, j, b);
    }
  }

  // ---------------------------------------------------------------- a thread being added

  /** Thread `t` has pushed `id` onto the queue and has not put it into the table yet. */
  ghost predicate IsPushed(s: State, t: Tid, id: Tid) {
    t in s.pcs && Adding(s.pcs[t]) == Some(id) && !NotYetQueued(s.pcs[t])
  }

  /** A context switch goes through with rotating the queue. */
  predicate GoesThrough(s: State) {
    s.tableWriter.None? && s.cur in s.lut && s.cur in s.tasks && s.queueLock.None?
  }

  /** What makes the queue lose an id that is not in the table: a commit of `reschedule`, whose
      snapshot cannot have it, or a context switch that finds nothing runnable ahead of it. */
  ghost predicate Loses(s: State, l: Label, id: Tid) {
    l.Commit? || (l.Switch? && GoesThrough(s) && forall a :: a in Runnable(s) ==> !Ahead(s.queue, a, id))
  }

  lemma SwitchLosesIff(s: State, next: Option<Tid>, s': State, id: Tid)
    requires SwitchStep(s, next, s') && Distinct(s.queue) && id in s.queue && id !in s.lut
    ensures id in s'.queue <==> !Loses(s, Switch(next), id)
  {
    if GoesThrough(s) { UnrunnableStaysIff(s.queue, Runnable(s), id); }
  }

  lemma PushedStep(reaper: Tid, s: State, l: Label, s': State, t: Tid, id: Tid)
    requires Inv(reaper, s) && Next(reaper, s, l, s') && IsPushed(s, t, id)
    ensures id in s'.queue <==> id in s.queue && !Loses(s, l, id)
  {
    assert ThreadInv(reaper, s, t) && AddingIsApart(s, t, s.cur);
    if l.Switch? {
      SwitchDropsOnlyUnrunnable(reaper, s, l.next, s');
      if id in s.queue { SwitchLosesIff(s, l.next, s', id); }
    } else if !l.Commit? {
      QueueOnlyGrowsOutsideSwitch(reaper, s, l, s');
    }
  }

  ghost predicate LosesAt(states: seq<State>, labels: seq<Label>, x: nat, id: Tid)
    requires |states| == |labels| + 1 && x < |labels|
  {
    Loses(states[x], labels[x], id)
  }

  lemma PushedStepAt(reaper: Tid, states: seq<State>, labels: seq<Label>, x: nat, t: Tid, id: Tid)
    requires IsRun(reaper, states, labels) && x < |labels| && IsPushed(states[x], t, id)
    ensures id in states[x + 1].queue <==> id in states[x].queue && !LosesAt(states, labels, x, id)
  {
    RunKeepsInv(reaper, states, labels, x);
    assert StepAt(reaper, states, labels, x);
    PushedStep(reaper, states[x], labels[x], states[x + 1], t, id);
  }

  /** Once `add_task_ptr__` is through, the new thread is in the run queue if and only if no
      step since the push lost it: no commit, and no switch with nothing runnable ahead. */
  lemma {:induction false} AddedIsQueuedIff(reaper: Tid, states: seq<State>, labels: seq<Label>,
                                            i: nat, j: nat, t: Tid, id: Tid)
    requires IsRun(reaper, states, labels) && i <= j < |states| && id in states[i].queue
    requires forall x :: i <= x < j ==> IsPushed(states[x], t, id)
    ensures id in states[j].queue <==> forall x :: i <= x < j ==> !LosesAt(states, labels, x, id)
    decreases j - i
  {
    if i < j {
      AddedIsQueuedIff(reaper, states, labels, i, j - 1, t, id);
      assert IsPushed(states[j - 1], t, id);
      PushedStepAt(reaper, states, labels, j - 1, t, id);
    }
  }

  /** Thread 0 is current or waits; 1 is the reaper and 2 the thread that 0 is adding. */
  function AddingTwo(pc: Pc, queue: seq<Tid>, cur: Tid, writer: Option<Tid>, lock: Option<Tid>): State {
    State(map[0 := Task(Ready, false), 1 := Task(Ready, false), 2 := Task(Ready, false)], {0, 1},
          writer, queue, lock, [], cur, map[0 := pc, 1 := Idle, 2 := Idle], 3, false)
  }

  /** Appends one step to a run. */
  lemma Extend(reaper: Tid, states: seq<State>, labels: seq<Label>, l: Label, s': State)
    returns (states': seq<State>, labels': seq<Label>)
    requires IsRun(reaper, states, labels) && Next(reaper, states[|labels|], l, s')
    ensures IsRun(reaper, states', labels') && states' == states + [s'] && labels' == labels + [l]
  {
    states', labels' := states + [s'], labels + [l];
    forall i | 0 <= i < |labels'| ensures StepAt(reaper, states', labels', i) {
      if i < |labels| { assert StepAt(reaper, states, labels, i) && states'[i + 1] == states[i + 1]; }
    }
  }

  lemma BuildsTwo() returns (states: seq<State>, labels: seq<Label>)
    ensures IsRun(1, states, labels) && states[|labels|] == AddingTwo(Announcing(2), [1, 0], 0, None, None)
  {
    var s := State(map[0 := Task(Ready, false), 1 := Task(Ready, false)], {0, 1}, None, [1, 0], None, [],
                   0, map[0 := Idle, 1 := Idle], 2, false);
    states, labels := Extend(1, [s], [], Build(2), AddingTwo(Announcing(2), [1, 0], 0, None, None));
  }

  /** A run up to the point where thread 2 is queued and not yet in the table. */
  lemma PushesTwo() returns (states: seq<State>, labels: seq<Label>)
    ensures IsRun(1, states, labels) && states[|labels|] == AddingTwo(Inserting(2), [1, 0, 2], 0, None, None)
  {
    states, labels := BuildsTwo();
    states, labels := Extend(1, states, labels, Proceed, AddingTwo(AnnounceHeld(2), [1, 0], 0, None, Some(0)));
    states, labels := Extend(1, states, labels, Proceed, AddingTwo(AnnounceDone(2), [1, 0, 2], 0, None, Some(0)));
    states, labels := Extend(1, states, labels, Proceed, AddingTwo(Inserting(2), [1, 0, 2], 0, None, None));
  }

  /** Context switches move the queue on, and drop thread 2 when it comes to the front. */
  lemma SwitchesDropTwo(s: State)
    requires s == AddingTwo(Inserting(2), [1, 0, 2], 0, None, None)
    ensures Next(1, s, Switch(Some(1)), s.(queue := [0, 2, 1], cur := 1))
    ensures Next(1, s.(queue := [0, 2, 1], cur := 1), Switch(Some(0)), s.(queue := [2, 1, 0]))
    ensures Next(1, s.(queue := [2, 1, 0]), Switch(Some(1)), s.(queue := [0, 1], cur := 1))
    ensures Next(1, s.(queue := [0, 1], cur := 1), Switch(Some(0)), s.(queue := [1, 0]))
  {
    var r := Runnable(s);
    assert r == {0, 1} && Runnable(s.(cur := 1)) == r;
    assert Rotation.Switch([2, 1, 0], r) == Rotation.Switch([1, 0], r);
    assert [2, 1, 0][1..] == [1, 0] && [1, 0][1..] + [1] == [0, 1] && [0, 1][1..] + [0] == [1, 0];
    assert [1, 0, 2][1..] + [1] == [0, 2, 1] && [0, 2, 1][1..] + [0] == [2, 1, 0];
  }

  /** Such a loss is real: between the push and the insertion the queue goes round once, and the
      new thread ends up in the table, able to run and not queued. */
  lemma AddedIsLost() returns (states: seq<State>, labels: seq<Label>)
    ensures IsRun(1, states, labels)
    ensures var s := states[|labels|]; 0 in s.pcs && s.pcs[0] == Idle && 2 in Runnable(s) && 2 !in s.queue
  {
    states, labels := PushesTwo();
    var s := states[|labels|];
    SwitchesDropTwo(s);
    states, labels := Extend(1, states, labels, Switch(Some(1)), s.(queue := [0, 2, 1], cur := 1));
    states, labels := Extend(1, states, labels, Switch(Some(0)), s.(queue := [2, 1, 0]));
    states, labels := Extend(1, states, labels, Switch(Some(1)), s.(queue := [0, 1], cur := 1));
    states, labels := Extend(1, states, labels, Switch(Some(0)), s.(queue := [1, 0]));
    states, labels := InsertsTwo(states, labels);
  }

  lemma InsertsTwo(states: seq<State>, labels: seq<Label>) returns (states': seq<State>, labels': seq<Label>)
    requires IsRun(1, states, labels) && states[|labels|] == AddingTwo(Inserting(2), [1, 0], 0, None, None)
    ensures IsRun(1, states', labels')
    ensures var s := states'[|labels'|]; 0 in s.pcs && s.pcs[0] == Idle && 2 in Runnable(s) && 2 !in s.queue
  {
    var s := AddingTwo(InsertHeld(2), [1, 0], 0, Some(0), None);
    states', labels' := Extend(1, states, labels, Proceed, s);
    s := Goto(s, InsertDone).(lut := s.lut + {2});
    states', labels' := Extend(1, states', labels', Proceed, s);
    states', labels' := Extend(1, states', labels', Proceed, Goto(s, Idle).(tableWriter := None));
  }

  /** From `i` to `j` the threads `a` and `b` share the queue, `b` runs at `j` and not before. */
  ghost predicate SharesQueue(states: seq<State>, labels: seq<Label>, i: nat, j: nat, a: Tid, b: Tid)
    requires |states| == |labels| + 1 && i <= j < |labels|
  {
    && Undisturbed(states, labels, i, j, a)
    && labels[j] == Switch(Some(b)) && (forall x :: i <= x < j ==> labels[x] != Switch(Some(b)))
  }

  /** Once `b` stands ahead, `a` waits until `b` has run. */
  lemma {:induction false} BehindIsNotDispatched(reaper: Tid, states: seq<State>, labels: seq<Label>,
                                                 i: nat, j: nat, a: Tid, b: Tid, x: nat)
    requires IsRun(reaper, states, labels) && i <= j < |labels| && SharesQueue(states, labels, i, j, a, b)
    requires a != b && Ahead(states[i].queue, b, a) && IsSettled(states[i], b) && i <= x < j
    ensures labels[x] != Switch(Some(a))
    decreases j - i
  {
    assert a in Runnable(states[i]);
    BehindStep(reaper, states, labels, i, a, b);
    LastDispatchIsQueued(reaper, states, labels, i + 1, j, b);
    if i < x { BehindIsNotDispatched(reaper, states, labels, i + 1, j, a, b, x); }
  }

  /** In one step, `a` behind `b` is not dispatched, or `b` drops out. */
  lemma BehindStep(reaper: Tid, states: seq<State>, labels: seq<Label>, i: nat, a: Tid, b: Tid)
    requires IsRun(reaper, states, labels) && i < |labels| && !labels[i].Commit? && a != b
    requires Ahead(states[i].queue, b, a) && a in Runnable(states[i]) && IsSettled(states[i], b)
    requires labels[i] != Switch(Some(b))
    ensures IsSettled(states[i + 1], b)
    ensures b in states[i + 1].queue ==> labels[i] != Switch(Some(a)) && Ahead(states[i + 1].queue, b, a)
  {
    RunKeepsInv(reaper, states, labels, i);
    var s, l, s' := states[i], labels[i], states[i + 1];
    assert StepAt(reaper, states, labels, i);
    StepKeepsSettled(reaper, s, l, s', b);
    if l.Switch? {
      SwitchRotates(reaper, s, l.next, s');
      BehindWaits(s.queue, Runnable(s), a, b);
    } else {
      QueueOnlyGrowsOutsideSwitch(reaper, s, l, s');
      if s'.queue != s.queue { AheadSurvivesPush(s.queue, b, a, s'.queue[|s'.queue| - 1]); }
    }
  }

  /** A thread that is dispatched at `j` without a reschedule before was queued all along. */
  lemma LastDispatchIsQueued(reaper: Tid, states: seq<State>, labels: seq<Label>, i: nat, j: nat, b: Tid)
    requires IsRun(reaper, states, labels) && i <= j < |labels| && labels[j] == Switch(Some(b))
    requires (forall x :: i <= x < j ==> !labels[x].Commit?) && IsSettled(states[i], b)
    ensures b in states[i].queue
  {
    assert StepAt(reaper, states, labels, j);
    SwitchDropsOnlyUnrunnable(reaper, states[j], Some(b), states[j + 1]);
    if b !in states[i].queue { AbsentStaysAbsent(reaper, states, labels, i, j, b); }
  }

  /** In one step, `a` ahead of `b` either stays ahead or is dispatched and falls behind. */
  lemma AheadStep(reaper: Tid, states: seq<State>, labels: seq<Label>, i: nat, a: Tid, b: Tid)
    requires IsRun(reaper, states, labels) && i < |labels| && !labels[i].Commit? && a != b
    requires Ahead(states[i].queue, a, b) && a in Runnable(states[i]) && IsSettled(states[i], b)
    ensures IsSettled(states[i + 1], b) && labels[i] != Switch(Some(b))
    ensures if labels[i] == Switch(Some(a)) then Ahead(states[i + 1].queue, b, a) else Ahead(states[i + 1].queue, a, b)
  {
    RunKeepsInv(reaper, states, labels, i);
    var s, l, s' := states[i], labels[i], states[i + 1];
    assert StepAt(reaper, states, labels, i);
    StepKeepsSettled(reaper, s, l, s', b);
    if l.Switch? {
      SwitchRotates(reaper, s, l.next, s');
      AheadGoesFirst(s.queue, Runnable(s), a, b);
    } else {
      QueueOnlyGrowsOutsideSwitch(reaper, s, l, s');
      if s'.queue != s.queue { AheadSurvivesPush(s.queue, a, b, s'.queue[|s'.queue| - 1]); }
    }
  }

  /** While `a` stands ahead of `b`, it is dispatched before `b` is, and only once. */
  lemma {:induction false} AheadIsDispatchedOnce(reaper: Tid, states: seq<State>, labels: seq<Label>,
                                                 i: nat, j: nat, a: Tid, b: Tid) returns (k: nat)
    requires IsRun(reaper, states, labels) && i <= j < |labels| && SharesQueue(states, labels, i, j, a, b)
    requires a != b && Ahead(states[i].queue, a, b) && IsSettled(states[i], b)
    ensures i <= k < j && labels[k] == Switch(Some(a))
    ensures forall x :: i <= x < j && labels[x] == Switch(Some(a)) ==> x == k
    decreases j - i
  {
    assert a in Runnable(states[i]);
    AheadStep(reaper, states, labels, i, a, b);
    if labels[i] == Switch(Some(a)) {
      k := i;
      forall x | i < x < j ensures labels[x] != Switch(Some(a)) {
        BehindIsNotDispatched(reaper, states, labels, i + 1, j, a, b, x);
      }
    } else {
      k := AheadIsDispatchedOnce(reaper, states, labels, i + 1, j, a, b);
    }
  }

  /** Round robin: between two consecutive dispatches of `b`, any other thread that is
      queued and stays runnable is dispatched exactly once. */
  lemma DispatchedExactlyOnceBetween(reaper: Tid, states: seq<State>, labels: seq<Label>,
                                     i: nat, j: nat, a: Tid, b: Tid) returns (k: nat)
    requires IsRun(reaper, states, labels) && i < j < |labels|
    requires labels[i] == Switch(Some(b)) && SharesQueue(states, labels, i + 1, j, a, b)
    requires a != b && a in states[i + 1].queue
    ensures i < k < j && labels[k] == Switch(Some(a))
    ensures forall x :: i < x < j && labels[x] == Switch(Some(a)) ==> x == k
  {
    RunKeepsInv(reaper, states, labels, i);
    var s, q := states[i], states[i + 1].queue;
    assert StepAt(reaper, states, labels, i);
    SwitchAt(s.queue, Runnable(s));
    TableIsSettled(reaper, s, b);
    StepKeepsSettled(reaper, s, labels[i], states[i + 1], b);
    var p :| 0 <= p < |q| && q[p] == a;
    assert q[|q| - 1] == b;
    k := AheadIsDispatchedOnce(reaper, states, labels, i + 1, j, a, b);
  }

  // ---------------------------------------------------------------- killed threads

  lemma StartKeepsZombie(reaper: Tid, s: State, l: Label, s': State, id: Tid)
    requires IdInv(s) && s.cur in s.pcs && StartStep(reaper, s, l, s') && IsZombie(s, id)
    ensures IsZombie(s', id)
  {
  }

  lemma ZombieStaysZombie(reaper: Tid, s: State, l: Label, s': State, id: Tid)
    requires IdInv(s) && Next(reaper, s, l, s') && IsZombie(s, id)
    ensures IsZombie(s', id) && l != Switch(Some(id))
  {
    if l.Switch? { SwitchDropsOnlyUnrunnable(reaper, s, l.next, s'); }
    else if l.Proceed? { assert s'.tasks == s.tasks; }
    else if !l.Commit? && !IsSweepLabel(l) { StartKeepsZombie(reaper, s, l, s', id); }
  }

  lemma {:induction false} KilledStaysZombie(reaper: Tid, states: seq<State>, labels: seq<Label>,
                                             id: Tid, i: nat, j: nat)
    requires IsRun(reaper, states, labels) && i < j < |states| && labels[i] == Kill(id)
    ensures IsZombie(states[j], id)
    decreases j
  {
    assert StepAt(reaper, states, labels, j - 1);
    if j > i + 1 {
      KilledStaysZombie(reaper, states, labels, id, i, j - 1);
      RunKeepsInv(reaper, states, labels, j - 1);
      ZombieStaysZombie(reaper, states[j - 1], labels[j - 1], states[j], id);
    }
  }

  /** After its kill a thread stays a zombie and is never dispatched. */
  lemma KilledIsNeverDispatched(reaper: Tid, states: seq<State>, labels: seq<Label>, id: Tid, i: nat, j: nat)
    requires IsRun(reaper, states, labels) && i < j < |labels| && labels[i] == Kill(id)
    ensures IsZombie(states[j], id) && labels[j] != Switch(Some(id))
  {
    KilledStaysZombie(reaper, states, labels, id, i, j);
    RunKeepsInv(reaper, states, labels, j);
    assert StepAt(reaper, states, labels, j);
    ZombieStaysZombie(reaper, states[j], labels[j], states[j + 1], id);
  }

  /** The id whose stacks the reaper is about to free. */
  function Cleaned(reaper: Tid, s: State): Option<Tid> {
    if reaper !in s.pcs then None
    else match s.pcs[reaper]
      case RemoveDone(id, found) => if found then Some(id) else None
      case Cleaning(id) => Some(id)
      case _ => None
  }

  /** The id has left the table for good. */
  ghost predicate IsGone(s: State, id: Tid) {
    IsSettled(s, id) && id !in s.lut
  }

  ghost predicate CleansOnlyGone(reaper: Tid, s: State) {
    Cleaned(reaper, s).Some? ==> IsGone(s, Cleaned(reaper, s).value)
  }

  lemma ProceedInsertsOnlyAdding(s: State, s': State)
    requires s.cur in s.pcs && ProceedStep(s, s')
    ensures forall x :: x in s'.lut ==> x in s.lut || Adding(s.pcs[s.cur]) == Some(x)
  {
  }

  lemma StepKeepsGone(reaper: Tid, s: State, l: Label, s': State, id: Tid)
    requires IdInv(s) && Next(reaper, s, l, s') && IsGone(s, id)
    ensures IsGone(s', id) && l != Remove(id, true)
  {
    StepKeepsSettled(reaper, s, l, s', id);
    assert IsNotAdding(s, s.cur, id);
    if l.Proceed? { ProceedInsertsOnlyAdding(s, s'); }
  }

  lemma ProceedKeepsCleaned(reaper: Tid, s: State, s': State)
    requires s.cur in s.pcs && ProceedStep(s, s') && (InCleanup(s.pcs[s.cur]) ==> s.cur == reaper)
    ensures Cleaned(reaper, s') == Cleaned(reaper, s)
  {
    assert reaper != s.cur && reaper in s.pcs ==> s'.pcs[reaper] == s.pcs[reaper];
  }

  lemma StartCleansNothing(reaper: Tid, s: State, l: Label, s': State)
    requires s.cur in s.pcs && StartStep(reaper, s, l, s')
    ensures Cleaned(reaper, s').Some? ==> Cleaned(reaper, s') == Cleaned(reaper, s)
  {
  }

  lemma CleaningStartsWithRemoval(reaper: Tid, s: State, l: Label, s': State)
    requires Next(reaper, s, l, s') && s.cur in s.pcs && (InCleanup(s.pcs[s.cur]) ==> s.cur == reaper)
    ensures Cleaned(reaper, s').Some? && Cleaned(reaper, s') != Cleaned(reaper, s) ==>
              l == Remove(Cleaned(reaper, s').value, true)
    ensures l.Clean? ==> Cleaned(reaper, s) == Some(l.id) && Cleaned(reaper, s') == None
  {
    if l.Switch? { assert s'.pcs == s.pcs; }
    else if l.Proceed? { ProceedKeepsCleaned(reaper, s, s'); }
    else if !l.Commit? && !IsSweepLabel(l) { StartCleansNothing(reaper, s, l, s'); }
  }

  lemma StepCleansOnlyGone(reaper: Tid, s: State, l: Label, s': State)
    requires Inv(reaper, s) && CleansOnlyGone(reaper, s) && Next(reaper, s, l, s')
    ensures CleansOnlyGone(reaper, s')
  {
    assert ThreadInv(reaper, s, s.cur);
    CleaningStartsWithRemoval(reaper, s, l, s');
    if Cleaned(reaper, s').Some? {
      var id := Cleaned(reaper, s').value;
      if Cleaned(reaper, s) == Some(id) { StepKeepsGone(reaper, s, l, s', id); }
      else {
        TableIsSettled(reaper, s, id);
        StepKeepsSettled(reaper, s, l, s', id);
      }
    }
  }

  lemma {:induction false} RunCleansOnlyGone(reaper: Tid, states: seq<State>, labels: seq<Label>, i: nat)
    requires IsRun(reaper, states, labels) && i < |states|
    ensures Inv(reaper, states[i]) && CleansOnlyGone(reaper, states[i])
  {
    RunKeepsInv(reaper, states, labels, i);
    if i > 0 {
      RunCleansOnlyGone(reaper, states, labels, i - 1);
      assert StepAt(reaper, states, labels, i - 1);
      StepCleansOnlyGone(reaper, states[i - 1], labels[i - 1], states[i]);
    }
  }

  /** A thread that left the table never comes back, and the reaper does not return to it. */
  lemma {:induction false} GoneStaysGone(reaper: Tid, states: seq<State>, labels: seq<Label>, id: Tid, i: nat, j: nat)
    requires IsRun(reaper, states, labels) && i <= j < |states| && IsGone(states[i], id)
    ensures IsGone(states[j], id)
    ensures Cleaned(reaper, states[i]) != Some(id) ==> Cleaned(reaper, states[j]) != Some(id)
    decreases j - i
  {
    if i < j {
      RunKeepsInv(reaper, states, labels, i);
      assert ThreadInv(reaper, states[i], states[i].cur);
      assert StepAt(reaper, states, labels, i);
      StepKeepsGone(reaper, states[i], labels[i], states[i + 1], id);
      CleaningStartsWithRemoval(reaper, states[i], labels[i], states[i + 1]);
      GoneStaysGone(reaper, states, labels, id, i + 1, j);
    }
  }

  /** A thread is taken out of the table at most once, however often its id was put on
      the zombie list. */
  lemma ReapedAtMostOnce(reaper: Tid, states: seq<State>, labels: seq<Label>, id: Tid, i: nat, j: nat)
    requires IsRun(reaper, states, labels) && i < j < |labels| && labels[i] == Remove(id, true)
    ensures labels[j] != Remove(id, true)
  {
    RunKeepsInv(reaper, states, labels, i);
    assert StepAt(reaper, states, labels, i);
    TableIsSettled(reaper, states[i], id);
    StepKeepsSettled(reaper, states[i], labels[i], states[i + 1], id);
    GoneStaysGone(reaper, states, labels, id, i + 1, j);
    RunKeepsInv(reaper, states, labels, j);
    assert StepAt(reaper, states, labels, j);
    StepKeepsGone(reaper, states[j], labels[j], states[j + 1], id);
  }

  /** Its stacks are handed to `cleanup_thread` at most once, so its kernel stack is
      freed at most once. */
  lemma StackFreedAtMostOnce(reaper: Tid, states: seq<State>, labels: seq<Label>, id: Tid, i: nat, j: nat)
    requires IsRun(reaper, states, labels) && i < j < |labels| && labels[i].Clean? && labels[i].id == id
    ensures !(labels[j].Clean? && labels[j].id == id)
  {
    RunCleansOnlyGone(reaper, states, labels, i);
    assert ThreadInv(reaper, states[i], states[i].cur);
    assert StepAt(reaper, states, labels, i);
    CleaningStartsWithRemoval(reaper, states[i], labels[i], states[i + 1]);
    StepKeepsGone(reaper, states[i], labels[i], states[i + 1], id);
    GoneStaysGone(reaper, states, labels, id, i + 1, j);
    RunKeepsInv(reaper, states, labels, j);
    assert ThreadInv(reaper, states[j], states[j].cur);
    assert StepAt(reaper, states, labels, j);
    CleaningStartsWithRemoval(reaper, states[j], labels[j], states[j + 1]);
  }

  // ---------------------------------------------------------------- the current thread

  /** The current thread is in the table, and a killed reaper is not current. */
  ghost predicate CurrentIsSafe(reaper: Tid, s: State) {
    s.cur in s.lut && (IsZombie(s, reaper) ==> s.cur != reaper)
  }

  predicate IsSelfKill(reaper: Tid, s: State, l: Label) {
    l == Kill(reaper) && s.cur == reaper
  }

  lemma SafeSwitch(reaper: Tid, s: State, next: Option<Tid>, s': State)
    requires SwitchStep(s, next, s') && CurrentIsSafe(reaper, s)
    ensures CurrentIsSafe(reaper, s')
  {
    SwitchConserves(s.queue, Runnable(s));
    if !IsZombie(s, reaper) { SwitchMakesNoZombie(s, next, s', reaper); }
  }

  lemma SafeStart(reaper: Tid, s: State, l: Label, s': State)
    requires IdInv(s) && s.cur in s.pcs && StartStep(reaper, s, l, s') && CurrentIsSafe(reaper, s)
    requires !IsSelfKill(reaper, s, l) && reaper in s.tasks
    ensures CurrentIsSafe(reaper, s')
  {
    if !IsZombie(s, reaper) && l != Kill(reaper) { StartMakesNoZombie(reaper, s, l, s', reaper); }
  }

  lemma SafeSweep(reaper: Tid, s: State, l: Label, s': State)
    requires s.cur in s.pcs && SweepStep(s, l, s') && CurrentIsSafe(reaper, s) && CleansZombies(reaper, s, s.cur)
    ensures CurrentIsSafe(reaper, s')
  {
  }

  lemma SafeStep(reaper: Tid, s: State, l: Label, s': State)
    requires Inv(reaper, s) && reaper in s.tasks && Next(reaper, s, l, s') && CurrentIsSafe(reaper, s)
    requires !IsSelfKill(reaper, s, l)
    ensures CurrentIsSafe(reaper, s') && reaper in s'.tasks
  {
    assert ThreadInv(reaper, s, s.cur);
    if l.Switch? { SafeSwitch(reaper, s, l.next, s'); }
    else if l.Proceed? { assert s'.tasks == s.tasks && s.lut <= s'.lut && s'.cur == s.cur; }
    else if IsSweepLabel(l) { SafeSweep(reaper, s, l, s'); }
    else if !l.Commit? { SafeStart(reaper, s, l, s'); }
  }

  /** The current thread is in the table in every state of every run in which the reaper does
      not kill itself. Being killed by another thread does no harm: the reaper is not
      dispatched again. */
  lemma {:induction false} CurrentStaysInTable(reaper: Tid, states: seq<State>, labels: seq<Label>, i: nat)
    requires IsRun(reaper, states, labels) && i < |states|
    requires forall x :: 0 <= x < i ==> !IsSelfKill(reaper, states[x], labels[x])
    ensures CurrentIsSafe(reaper, states[i]) && reaper in states[i].tasks
  {
    if i > 0 {
      CurrentStaysInTable(reaper, states, labels, i - 1);
      RunKeepsInv(reaper, states, labels, i - 1);
      assert !IsSelfKill(reaper, states[i - 1], labels[i - 1]);
      assert StepAt(reaper, states, labels, i - 1);
      SafeStep(reaper, states[i - 1], labels[i - 1], states[i]);
    }
  }

  /** Then whatever cleanup frees belongs to a zombie that is not running. */
  lemma CleanedIsNotCurrent(reaper: Tid, states: seq<State>, labels: seq<Label>, i: nat)
    requires IsRun(reaper, states, labels) && i < |labels| && labels[i].Clean?
    requires forall x :: 0 <= x < i ==> !IsSelfKill(reaper, states[x], labels[x])
    ensures IsZombie(states[i], labels[i].id) && labels[i].id != states[i].cur
  {
    RunKeepsInv(reaper, states, labels, i);
    CurrentStaysInTable(reaper, states, labels, i);
    assert StepAt(reaper, states, labels, i);
    assert ThreadInv(reaper, states[i], states[i].cur);
  }

  /** The exact cause: a removal takes the current thread out of the table if and only if the
      reaper has killed itself, has kept the CPU ever since, and has now come to its own id. */
  lemma RemovesCurrentIffSelfKilled(reaper: Tid, states: seq<State>, labels: seq<Label>, i: nat)
    requires IsRun(reaper, states, labels) && i < |labels| && labels[i].Remove?
    ensures states[i].cur in states[i].lut && states[i + 1].cur !in states[i + 1].lut <==>
            && labels[i] == Remove(reaper, true)
            && exists x :: 0 <= x < i && HasKeptCpuSinceSelfKill(reaper, states, labels, x, i)
  {
    RunKeepsInv(reaper, states, labels, i);
    assert StepAt(reaper, states, labels, i);
    assert ThreadInv(reaper, states[i], states[i].cur);
    assert states[i].cur == reaper;
    if labels[i] == Remove(reaper, true) { var x := SelfKillBefore(reaper, states, labels, i); }
  }

  ghost predicate HasKeptCpuSinceSelfKill(reaper: Tid, states: seq<State>, labels: seq<Label>, x: nat, i: nat)
    requires |states| == |labels| + 1 && x < i < |states|
  {
    IsSelfKill(reaper, states[x], labels[x]) && forall y :: x <= y <= i ==> states[y].cur == reaper
  }

  /** A zombie reaper that is current has killed itself and kept the CPU. */
  lemma {:induction false} SelfKillBefore(reaper: Tid, states: seq<State>, labels: seq<Label>, i: nat) returns (x: nat)
    requires IsRun(reaper, states, labels) && i < |states|
    requires states[i].cur == reaper && IsZombie(states[i], reaper)
    ensures x < i && HasKeptCpuSinceSelfKill(reaper, states, labels, x, i)
  {
    assert i > 0;
    CurrentZombieStepAt(reaper, states, labels, i - 1);
    if IsSelfKill(reaper, states[i - 1], labels[i - 1]) { x := i - 1; }
    else { x := SelfKillBefore(reaper, states, labels, i - 1); }
  }

  lemma CurrentZombieStepAt(reaper: Tid, states: seq<State>, labels: seq<Label>, y: nat)
    requires IsRun(reaper, states, labels) && y < |labels|
    requires states[y + 1].cur == reaper && IsZombie(states[y + 1], reaper)
    ensures states[y].cur == reaper && (IsSelfKill(reaper, states[y], labels[y]) || IsZombie(states[y], reaper))
  {
    RunKeepsInv(reaper, states, labels, y);
    assert StepAt(reaper, states, labels, y);
    CurrentZombieStep(reaper, states[y], labels[y], states[y + 1]);
  }

  lemma CurrentZombieStep(reaper: Tid, s: State, l: Label, s': State)
    requires Inv(reaper, s) && Next(reaper, s, l, s') && s'.cur == reaper && IsZombie(s', reaper)
    ensures s.cur == reaper && (IsSelfKill(reaper, s, l) || IsZombie(s, reaper))
  {
    if l.Switch? {
      SwitchDropsOnlyUnrunnable(reaper, s, l.next, s');
      if !IsZombie(s, reaper) { SwitchMakesNoZombie(s, l.next, s', reaper); }
    } else {
      assert s'.cur == s.cur;
      if !IsZombie(s, reaper) && l != Kill(reaper) && reaper in s.tasks { ZombiesAreKilled(reaper, s, l, s', reaper); }
    }
  }

  lemma YieldingZombieStep(reaper: Tid, s: State, l: Label, s': State)
    requires Inv(reaper, s) && Next(reaper, s, l, s') && s.cur in s.lut && (IsZombie(s, s.cur) ==> l.Switch?)
    ensures s'.cur in s'.lut
  {
    assert ThreadInv(reaper, s, s.cur);
    if l.Switch? { SwitchDropsOnlyUnrunnable(reaper, s, l.next, s'); }
    else if l.Proceed? { assert s.lut <= s'.lut && s'.cur == s.cur; }
  }

  /** The kernel's own way to die: a thread that has killed itself does nothing but yield. If
      that holds of every thread, the current thread is in the table in every state. */
  lemma {:induction false} YieldingZombiesStayInTable(reaper: Tid, states: seq<State>, labels: seq<Label>, i: nat)
    requires IsRun(reaper, states, labels) && i < |states|
    requires forall x :: 0 <= x < i && IsZombie(states[x], states[x].cur) ==> labels[x].Switch?
    ensures states[i].cur in states[i].lut
  {
    if i > 0 {
      YieldingZombiesStayInTable(reaper, states, labels, i - 1);
      RunKeepsInv(reaper, states, labels, i - 1);
      assert StepAt(reaper, states, labels, i - 1);
      YieldingZombieStep(reaper, states[i - 1], labels[i - 1], states[i]);
    }
  }

  /** Without that the model has a run in which it fails: a reaper that kills itself and goes on
      to sweep removes itself while it is running. */
  lemma SelfKilledReaperRemovesItself() returns (states: seq<State>, labels: seq<Label>)
    ensures IsRun(0, states, labels) && |labels| > 0 && labels[|labels| - 1] == Remove(0, true)
    ensures states[|labels| - 1].cur in states[|labels| - 1].lut && states[|labels|].cur !in states[|labels|].lut
  {
    states, labels := SelfKill();
    states, labels := SweptPopsItself(states, labels);
    states, labels := PoppedRemovesItself(states, labels);
  }

  lemma SelfKill() returns (states: seq<State>, labels: seq<Label>)
    ensures IsRun(0, states, labels)
    ensures var s := states[|labels|];
            s.cur == 0 && s.pcs == map[0 := Idle] && s.lut == {0} && s.tableWriter == None && s.zombies == [0]
  {
    var s := State(map[0 := Task(Ready, false)], {0}, None, [0], None, [], 0, map[0 := Idle], 1, false);
    states, labels := Extend(0, [s], [], Kill(0), SetState(s, 0, Zombie).(zombies := s.zombies + [0]));
  }

  lemma SweptPopsItself(states: seq<State>, labels: seq<Label>) returns (states': seq<State>, labels': seq<Label>)
    requires IsRun(0, states, labels)
    requires var s := states[|labels|];
             s.cur == 0 && s.pcs == map[0 := Idle] && s.lut == {0} && s.tableWriter == None && s.zombies == [0]
    ensures IsRun(0, states', labels')
    ensures var s := states'[|labels'|];
            s.cur == 0 && s.pcs == map[0 := Popped(0)] && s.lut == {0} && s.tableWriter == None
  {
    var s := Goto(states[|labels|], Sweeping);
    states', labels' := Extend(0, states, labels, Sweep, s);
    states', labels' := Extend(0, states', labels', Pop(0), Goto(s, Popped(0)).(zombies := s.zombies[1..]));
  }

  lemma PoppedRemovesItself(states: seq<State>, labels: seq<Label>) returns (states': seq<State>, labels': seq<Label>)
    requires IsRun(0, states, labels)
    requires var s := states[|labels|];
             s.cur == 0 && s.pcs == map[0 := Popped(0)] && s.lut == {0} && s.tableWriter == None
    ensures IsRun(0, states', labels') && |labels'| > 0 && labels'[|labels'| - 1] == Remove(0, true)
    ensures states'[|labels'| - 1].cur in states'[|labels'| - 1].lut
    ensures states'[|labels'|].cur !in states'[|labels'|].lut
  {
    var s := Goto(states[|labels|], PoppedHeld(0)).(tableWriter := Some(0));
    states', labels' := Extend(0, states, labels, Proceed, s);
    states', labels' := Extend(0, states', labels', Remove(0, true), Goto(s, RemoveDone(0, true)).(lut := {}));
  }

  lemma StartMakesNoZombie(reaper: Tid, s: State, l: Label, s': State, id: Tid)
    requires IdInv(s) && s.cur in s.pcs && StartStep(reaper, s, l, s')
    requires id in s.tasks && !IsZombie(s, id) && l != Kill(id)
    ensures !IsZombie(s', id)
  {
  }

  lemma SwitchMakesNoZombie(s: State, next: Option<Tid>, s': State, id: Tid)
    requires SwitchStep(s, next, s') && !IsZombie(s, id)
    ensures !IsZombie(s', id)
  {
  }

  lemma SweepMakesNoZombie(s: State, l: Label, s': State, id: Tid)
    requires s.cur in s.pcs && SweepStep(s, l, s') && !IsZombie(s, id)
    ensures !IsZombie(s', id)
  {
  }

  lemma ZombiesAreKilled(reaper: Tid, s: State, l: Label, s': State, id: Tid)
    requires IdInv(s) && id in s.tasks && Next(reaper, s, l, s') && !IsZombie(s, id) && l != Kill(id)
    ensures !IsZombie(s', id)
  {
    if l.Switch? { SwitchMakesNoZombie(s, l.next, s', id); }
    else if l.Proceed? { assert s'.tasks == s.tasks; }
    else if IsSweepLabel(l) { SweepMakesNoZombie(s, l, s', id); }
    else if l.Commit? { assert s'.tasks == s.tasks; }
    else { StartMakesNoZombie(reaper, s, l, s', id); }
  }
}
