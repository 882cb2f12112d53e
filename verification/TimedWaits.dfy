/** Timed waits: the wait observer's `enqueue`, the timer queue and its signal passes,
    as one transition system on a single CPU.

    A thread that wants to sleep first puts a node into the timer heap, then marks
    itself blocked, then checks its conditions once more.  The signal pass runs in the
    wait manager's thread and may cut in between any two of these actions. */
module TimedWaits {

  import opened KernelTypes

  datatype WaitCondition =
    | Time(deadline: nat)
    | Keyboard
    | Thread(id: Tid, onExit: bool, onWakeup: bool, onBlock: bool)
    | Generic(value: nat)
    | NoCondition

  datatype QueueType = Timer | OtherQueue(key: nat)

  datatype QueueCondition = QueueCondition(queue: QueueType, cond: WaitCondition)

  type Conditions = seq<QueueCondition>

  /** A heap entry.  Only `Time` conditions enter the timer heap. */
  datatype WaitNode = WaitNode(deadline: nat, id: Tid)

  /** The order the heap is kept in: the deadline first, the thread id second. */
  predicate NodeLeq(m: WaitNode, n: WaitNode) {
    m.deadline < n.deadline || (m.deadline == n.deadline && m.id <= n.id)
  }

  predicate IsTop(heap: multiset<WaitNode>, n: WaitNode) {
    n in heap && forall m :: m in heap ==> NodeLeq(n, m)
  }

  /** Where a thread stands in `WaitObserver::enqueue`. `slept` says that the call returned
      from the end of the test after its own `try_block`, without waking itself again. */
  datatype Pc =
    | Idle                                           // outside any wait call
    | Pushing(conds: Conditions, at: nat)            // first loop, about to test entry `at`
    | PushReady(conds: Conditions, at: nat)          // entry `at` was not given; about to queue it
    | Guarding(conds: Conditions, round: nat, at: nat) // retry loop, testing entry `at` before blocking
    | Blockable(conds: Conditions, round: nat)       // no entry was given; about to call try_block
    | Rechecking(conds: Conditions, at: nat)         // blocked; testing entry `at` again
    | Unblocking(conds: Conditions)                  // the second test hit; about to wake itself
    | Returned(conds: Conditions, slept: bool)       // enqueue has returned, the caller yields
    | Parked                                         // blocked by something other than enqueue

  /** Where the wait manager stands in `TimeWaitQueue::signal`; it holds the heap's
      lock unless it is `NoPass`. */
  datatype Pass = NoPass | Scanning | Popping(top: WaitNode)

  datatype State = State(
    now: nat,
    keyboardEmpty: bool,
    callbacks: set<nat>,            // values on which a Generic callback answers true
    threads: map<Tid, TaskState>,   // the thread table
    heap: multiset<WaitNode>,
    pass: Pass,
    pcs: map<Tid, Pc>,
    cur: Tid)

  const RETRIES: nat := 5

  predicate IsGiven(s: State, c: WaitCondition) {
    match c
    case Time(t) => t <= s.now
    case Keyboard => !s.keyboardEmpty
    case Thread(id, onExit, onWakeup, onBlock) =>
      id in s.threads ==>
        var st := s.threads[id];
        || (onExit && st == Zombie)
        || (onWakeup && (st == Ready || st == Running))
        || (onBlock && st == Blocking)
    case Generic(v) => v in s.callbacks
    case NoCondition => true
  }

  predicate IsBlocked(s: State, a: Tid) {
    a in s.threads && s.threads[a] == Blocking
  }

  /** `TaskManager::wake`. */
  function Wake(threads: map<Tid, TaskState>, a: Tid): map<Tid, TaskState> {
    if a in threads && (threads[a] == Blocking || threads[a] == Sleeping)
    then threads[a := Ready] else threads
  }

  /** `TaskManager::try_block` succeeds on these. */
  predicate CanBlock(s: State, a: Tid) {
    a in s.threads && s.threads[a] != Zombie && s.threads[a] != Sleeping
  }

  predicate IsTimer(q: QueueCondition) {
    q.queue == Timer && q.cond.Time?
  }

  function Goto(s: State, pc: Pc): State {
    s.(pcs := s.pcs[s.cur := pc])
  }

  datatype Label =
    | Tick(later: nat)                               // the clock moves on
    | Environment(keyboardEmpty: bool, callbacks: set<nat>)
    | Dispatch(next: Tid)                            // context switch
    | Call(conds: Conditions)                        // the current thread calls enqueue
    | Advance(lockBusy: bool)                        // its next action inside enqueue
    | Park                                           // it blocks outside enqueue
    | Resume                                         // it runs on after its yield
    | OtherWake(id: Tid)                             // another queue or lock wakes a thread
    | Kill(id: Tid)
    | Reap(id: Tid)
    | Spawn(id: Tid)
    | BeginPass
    | WakeTop(node: WaitNode)
    | PopTop(node: WaitNode)
    | EndPass

  /** The next action of the current thread inside `enqueue`.  `lockBusy` says that
      `try_block` could not read the thread table. */
  ghost predicate AdvanceStep(s: State, lockBusy: bool, s': State)
    requires s.cur in s.pcs
  {
    match s.pcs[s.cur]
    case Pushing(cs, k) =>
      if k >= |cs| then s' == Goto(s, Guarding(cs, 0, 0))
      else if IsGiven(s, cs[k].cond) then s' == Goto(s, Returned(cs, false))
      else s' == Goto(s, PushReady(cs, k))
    case PushReady(cs, k) =>
      k < |cs| &&
      if IsTimer(cs[k])
      then s.pass.NoPass? &&
           s' == Goto(s, Pushing(cs, k + 1)).(heap := s.heap + multiset{WaitNode(cs[k].cond.deadline, s.cur)})
      else s' == Goto(s, Pushing(cs, k + 1))
    case Guarding(cs, n, j) =>
      if j >= |cs| then s' == Goto(s, Blockable(cs, n))
      else if IsGiven(s, cs[j].cond) then s' == Goto(s, Returned(cs, false))
      else s' == Goto(s, Guarding(cs, n, j + 1))
    case Blockable(cs, n) =>
      if CanBlock(s, s.cur) && !lockBusy
      then s' == Goto(s, Rechecking(cs, 0)).(threads := s.threads[s.cur := Blocking])
      else if n + 1 < RETRIES then s' == Goto(s, Guarding(cs, n + 1, 0))
      else s' == Goto(s, Returned(cs, false))
    case Rechecking(cs, j) =>
      if j >= |cs| then s' == Goto(s, Returned(cs, true))
      else if IsGiven(s, cs[j].cond) then s' == Goto(s, Unblocking(cs))
      else s' == Goto(s, Rechecking(cs, j + 1))
    case Unblocking(cs) =>
      s' == Goto(s, Returned(cs, false)).(threads := Wake(s.threads, s.cur))
    case _ => false
  }

  /** One step of the system; `manager` is the wait manager's thread. */
  ghost predicate Next(manager: Tid, s: State, l: Label, s': State) {
    match l
    case Tick(later) => s.now <= later && s' == s.(now := later)
    case Environment(k, cb) => s' == s.(keyboardEmpty := k, callbacks := cb)
    case Dispatch(b) => b in s.threads && s.threads[b] == Ready && s' == s.(cur := b)
    case Call(cs) => s.cur in s.pcs && s.pcs[s.cur].Idle? && s' == Goto(s, Pushing(cs, 0))
    case Advance(lockBusy) => s.cur in s.pcs && AdvanceStep(s, lockBusy, s')
    case Park =>
      s.cur in s.pcs && s.pcs[s.cur].Idle? && CanBlock(s, s.cur) &&
      s' == Goto(s, Parked).(threads := s.threads[s.cur := Blocking])
    case Resume =>
      s.cur in s.pcs && (s.pcs[s.cur].Returned? || s.pcs[s.cur].Parked?) && s' == Goto(s, Idle)
    case OtherWake(b) => s' == s.(threads := Wake(s.threads, b))
    case Kill(b) => b in s.threads && s' == s.(threads := s.threads[b := Zombie])
    case Reap(b) => b in s.threads && s.threads[b] == Zombie && s' == s.(threads := s.threads - {b})
    case Spawn(b) =>
      b !in s.pcs && b !in s.threads &&
      s' == s.(threads := s.threads[b := Ready], pcs := s.pcs[b := Idle])
    case BeginPass => s.cur == manager && s.pass.NoPass? && s' == s.(pass := Scanning)
    case WakeTop(n) =>
      s.cur == manager && s.pass.Scanning? && IsTop(s.heap, n) && n.deadline <= s.now &&
      s' == s.(threads := Wake(s.threads, n.id), pass := Popping(n))
    case PopTop(n) =>
      s.cur == manager && s.pass.Popping? && IsTop(s.heap, n) &&
      s' == s.(heap := s.heap - multiset{n}, pass := Scanning)
    case EndPass =>
      s.cur == manager && s.pass.Scanning? &&
      (forall n :: IsTop(s.heap, n) ==> s.now < n.deadline) &&
      s' == s.(pass := NoPass)
  }

  ghost predicate Init(s: State) {
    && s.heap == multiset{}
    && s.pass == NoPass
    && (forall a :: a in s.pcs ==> s.pcs[a] == Idle)
  }

  /** A run: states and the labels between them. */
  ghost predicate IsRun(manager: Tid, states: seq<State>, labels: seq<Label>) {
    && |states| == |labels| + 1
    && forall i {:trigger StepAt(manager, states, labels, i)} ::
         0 <= i < |labels| ==> StepAt(manager, states, labels, i)
  }

  ghost predicate StepAt(manager: Tid, states: seq<State>, labels: seq<Label>, i: nat)
    requires |states| == |labels| + 1 && i < |labels|
  {
    Next(manager, states[i], labels[i], states[i + 1])
  }

  // ---------------------------------------------------------------- the invariant

  /** How many entries of its list a thread has already put into the queues. */
  function Queued(pc: Pc): nat {
    match pc
    case Pushing(_, k) => k
    case PushReady(_, k) => k
    case Guarding(cs, _, _) => |cs|
    case Blockable(cs, _) => |cs|
    case Rechecking(cs, _) => |cs|
    case Unblocking(cs) => |cs|
    case _ => 0
  }

  /** How many entries passed the test made after blocking. */
  function Rechecked(pc: Pc): nat {
    match pc
    case Rechecking(_, j) => j
    case Returned(cs, slept) => if slept then |cs| else 0
    case _ => 0
  }

  predicate InCall(pc: Pc) {
    !pc.Idle? && !pc.Parked?
  }

  /** A queued deadline is still in the heap, or it has passed. */
  ghost predicate QueuedOrDue(s: State, a: Tid)
    requires a in s.pcs
  {
    var pc := s.pcs[a];
    InCall(pc) ==>
      forall i :: 0 <= i < Queued(pc) && i < |pc.conds| && IsTimer(pc.conds[i]) ==>
        WaitNode(pc.conds[i].cond.deadline, a) in s.heap || pc.conds[i].cond.deadline <= s.now
  }

  /** A rechecked deadline of a blocked thread is in the heap and not about to be popped. */
  ghost predicate RecheckedIsArmed(s: State, a: Tid)
    requires a in s.pcs
  {
    var pc := s.pcs[a];
    InCall(pc) && IsBlocked(s, a) ==>
      forall i :: 0 <= i < Rechecked(pc) && i < |pc.conds| && IsTimer(pc.conds[i]) ==>
        var n := WaitNode(pc.conds[i].cond.deadline, a);
        n in s.heap && s.pass != Popping(n)
  }

  ghost predicate PassInv(s: State) {
    s.pass.Popping? ==> IsTop(s.heap, s.pass.top) && s.pass.top.deadline <= s.now
  }

  ghost predicate ThreadInv(s: State, a: Tid)
    requires a in s.pcs
  {
    QueuedOrDue(s, a) && RecheckedIsArmed(s, a)
  }

  ghost predicate Inv(s: State) {
    PassInv(s) && forall a {:trigger ThreadInv(s, a)} :: a in s.pcs ==> ThreadInv(s, a)
  }

  /** The order on nodes is antisymmetric, so a heap has one top. */
  lemma TopIsUnique(heap: multiset<WaitNode>, m: WaitNode, n: WaitNode)
    requires IsTop(heap, m) && IsTop(heap, n)
    ensures m == n
  {
    assert NodeLeq(m, n) && NodeLeq(n, m);
  }

  /** `pop` removes the very node that `peek` showed and whose thread was woken. */
  lemma PopRemovesThePeekedNode(manager: Tid, s: State, n: WaitNode, s': State)
    requires Inv(s) && Next(manager, s, PopTop(n), s')
    ensures s.pass == Popping(n) && s'.heap == s.heap - multiset{s.pass.top}
  {
    TopIsUnique(s.heap, n, s.pass.top);
  }

  lemma PassStepsKeepInv(manager: Tid, s: State, l: Label, s': State)
    requires Inv(s) && Next(manager, s, l, s')
    requires l.BeginPass? || l.WakeTop? || l.PopTop? || l.EndPass?
    ensures Inv(s')
  {
    if l.PopTop? { PopRemovesThePeekedNode(manager, s, l.node, s'); }
    forall a | a in s'.pcs ensures ThreadInv(s', a) {
      assert ThreadInv(s, a);
    }
  }

  lemma AdvanceKeepsOthers(s: State, lockBusy: bool, s': State, a: Tid)
    requires s.cur in s.pcs && AdvanceStep(s, lockBusy, s')
    requires a in s.pcs && a != s.cur && ThreadInv(s, a)
    ensures a in s'.pcs && ThreadInv(s', a)
  {
    AdvanceTouchesOnlySelf(s, lockBusy, s');
    assert s'.pcs[a] == s.pcs[a] && s.now == s'.now && s.heap <= s'.heap;
  }

  lemma PushQueues(s: State, lockBusy: bool, s': State)
    requires s.cur in s.pcs && s.pcs[s.cur].PushReady? && AdvanceStep(s, lockBusy, s') && QueuedOrDue(s, s.cur)
    ensures s.cur in s'.pcs && QueuedOrDue(s', s.cur)
  {
    assert s.heap <= s'.heap;
  }

  lemma AdvanceQueues(s: State, lockBusy: bool, s': State)
    requires s.cur in s.pcs && AdvanceStep(s, lockBusy, s') && QueuedOrDue(s, s.cur)
    ensures s.cur in s'.pcs && QueuedOrDue(s', s.cur)
  {
    if s.pcs[s.cur].PushReady? { PushQueues(s, lockBusy, s'); }
    else {
      var pc, pc' := s.pcs[s.cur], s'.pcs[s.cur];
      assert s'.heap == s.heap && s'.now == s.now && pc'.conds == pc.conds && Queued(pc') <= Queued(pc);
    }
  }

  lemma AdvanceRechecks(s: State, lockBusy: bool, s': State)
    requires PassInv(s) && s.cur in s.pcs && AdvanceStep(s, lockBusy, s') && ThreadInv(s, s.cur)
    ensures s.cur in s'.pcs && RecheckedIsArmed(s', s.cur)
  {
  }

  lemma AdvanceKeepsPass(s: State, lockBusy: bool, s': State)
    requires PassInv(s) && s.cur in s.pcs && AdvanceStep(s, lockBusy, s')
    ensures PassInv(s') && s'.cur == s.cur && s'.pcs.Keys == s.pcs.Keys
  {
    AdvanceTouchesOnlySelf(s, lockBusy, s');
  }

  lemma AdvanceKeepsInv(s: State, lockBusy: bool, s': State)
    requires Inv(s) && s.cur in s.pcs && AdvanceStep(s, lockBusy, s')
    ensures Inv(s')
  {
    AdvanceKeepsPass(s, lockBusy, s');
    forall a | a in s'.pcs ensures ThreadInv(s', a) {
      assert ThreadInv(s, a);
      if a == s.cur {
        AdvanceQueues(s, lockBusy, s');
        AdvanceRechecks(s, lockBusy, s');
      } else {
        AdvanceKeepsOthers(s, lockBusy, s', a);
      }
    }
  }

  /** Outside a call and outside a pass the heap stands still. */
  lemma OutsideStepsKeepInv(manager: Tid, s: State, l: Label, s': State)
    requires Inv(s) && Next(manager, s, l, s')
    requires l.Tick? || l.Environment? || l.Dispatch? || l.OtherWake? || l.Kill? || l.Reap? || l.Spawn?
    ensures Inv(s')
  {
    forall a | a in s'.pcs ensures ThreadInv(s', a) {
      assert IsBlocked(s', a) ==> IsBlocked(s, a);
      if a in s.pcs { assert ThreadInv(s, a); }
    }
  }

  lemma CallStepsKeepInv(manager: Tid, s: State, l: Label, s': State)
    requires Inv(s) && Next(manager, s, l, s')
    requires l.Call? || l.Park? || l.Resume?
    ensures Inv(s')
  {
    forall a | a in s'.pcs ensures ThreadInv(s', a) {
      assert ThreadInv(s, a);
    }
  }

  lemma {:induction false} RunKeepsInv(manager: Tid, states: seq<State>, labels: seq<Label>, i: nat)
    requires IsRun(manager, states, labels) && Init(states[0]) && i < |states|
    ensures Inv(states[i])
  {
    if i > 0 {
      RunKeepsInv(manager, states, labels, i - 1);
      var s, l, s' := states[i - 1], labels[i - 1], states[i];
      assert StepAt(manager, states, labels, i - 1);
      if l.Advance? { AdvanceKeepsInv(s, l.lockBusy, s'); }
      else if l.BeginPass? || l.WakeTop? || l.PopTop? || l.EndPass? { PassStepsKeepInv(manager, s, l, s'); }
      else if l.Call? || l.Park? || l.Resume? { CallStepsKeepInv(manager, s, l, s'); }
      else { OutsideStepsKeepInv(manager, s, l, s'); }
    }
  }

  // ---------------------------------------------------------------- wakeups are not lost

  ghost predicate HasDeadline(cs: Conditions, t: nat) {
    exists i :: 0 <= i < |cs| && cs[i] == QueueCondition(Timer, Time(t))
  }

  /** `enqueue` has returned after its own `try_block`, its thread still sleeps, and `t` was
      one of its deadlines. */
  ghost predicate SleepsUntil(s: State, a: Tid, t: nat) {
    && a in s.pcs && s.pcs[a].Returned? && s.pcs[a].slept && HasDeadline(s.pcs[a].conds, t)
    && IsBlocked(s, a)
  }

  /** The nodes that a pass has yet to act on. */
  function Pending(s: State): multiset<WaitNode> {
    if s.pass.Popping? then s.heap - multiset{s.pass.top} else s.heap
  }

  /** After `enqueue` has put its thread to sleep and returned, every deadline of its list
      has a node in the timer heap that no pass has consumed, in every run. */
  lemma NoLostTimerWakeup(manager: Tid, states: seq<State>, labels: seq<Label>, i: nat, a: Tid, t: nat)
    requires IsRun(manager, states, labels) && Init(states[0]) && i < |states|
    requires SleepsUntil(states[i], a, t)
    ensures WaitNode(t, a) in Pending(states[i])
  {
    RunKeepsInv(manager, states, labels, i);
    assert ThreadInv(states[i], a);
  }

  lemma {:induction false} NonEmptyHeapHasTop(heap: multiset<WaitNode>) returns (top: WaitNode)
    requires heap != multiset{}
    ensures IsTop(heap, top)
    decreases |heap|
  {
    var n :| n in heap;
    var rest := heap - multiset{n};
    if rest == multiset{} {
      assert heap == multiset{n};
      return n;
    }
    var m := NonEmptyHeapHasTop(rest);
    assert forall x :: x in heap ==> x == n || x in rest;
    if NodeLeq(n, m) { top := n; } else { top := m; }
  }

  lemma TopDueLast(heap: multiset<WaitNode>, top: WaitNode, now: nat)
    requires IsTop(heap, top) && now < top.deadline
    ensures forall n :: n in heap ==> now < n.deadline
  {
  }

  /** A completed pass leaves no expired node behind. */
  lemma PassLeavesNothingDue(manager: Tid, s: State, s': State)
    requires Next(manager, s, EndPass, s')
    ensures forall n :: n in s'.heap ==> s.now < n.deadline
  {
    if s.heap != multiset{} {
      var top := NonEmptyHeapHasTop(s.heap);
    }
  }

  /** A sleeping thread leaves `Blocking` only by becoming ready or by being killed. */
  lemma BlockedBecomesReady(manager: Tid, s: State, l: Label, s': State, a: Tid)
    requires Next(manager, s, l, s') && IsBlocked(s, a) && !IsBlocked(s', a) && l != Kill(a)
    ensures a in s'.threads && s'.threads[a] == Ready
  {
  }

  /** What an action inside `enqueue` can touch: its own state and nodes. */
  lemma AdvanceTouchesOnlySelf(s: State, lockBusy: bool, s': State)
    requires s.cur in s.pcs && AdvanceStep(s, lockBusy, s')
    ensures s'.cur == s.cur && s'.pass == s.pass
    ensures s'.heap == s.heap || (s.pass.NoPass? && exists t :: s'.heap == s.heap + multiset{WaitNode(t, s.cur)})
    ensures forall a :: a != s.cur ==> IsBlocked(s', a) == IsBlocked(s, a)
  {
    assert s.heap + multiset{} == s.heap;
  }

  lemma PassStepKeepsArmed(manager: Tid, s: State, l: Label, s': State, a: Tid, t: nat)
    requires PassInv(s) && Next(manager, s, l, s') && IsBlocked(s, a) && IsBlocked(s', a)
    requires WaitNode(t, a) in Pending(s)
    requires l.BeginPass? || l.WakeTop? || l.PopTop? || l.EndPass?
    ensures WaitNode(t, a) in Pending(s')
  {
    if l.PopTop? { TopIsUnique(s.heap, l.node, s.pass.top); }
  }

  /** A consumed node has woken its thread: as long as the thread stays blocked, its
      unconsumed nodes stay. */
  lemma BlockedStaysArmed(manager: Tid, s: State, l: Label, s': State, a: Tid, t: nat)
    requires PassInv(s) && Next(manager, s, l, s') && IsBlocked(s, a) && IsBlocked(s', a)
    requires WaitNode(t, a) in Pending(s)
    ensures WaitNode(t, a) in Pending(s')
  {
    if l.Advance? { AdvanceTouchesOnlySelf(s, l.lockBusy, s'); }
    else if l.BeginPass? || l.WakeTop? || l.PopTop? || l.EndPass? { PassStepKeepsArmed(manager, s, l, s', a, t); }
    else { assert s'.heap == s.heap && s'.pass == s.pass; }
  }

  lemma ArmedStepAt(manager: Tid, states: seq<State>, labels: seq<Label>, i: nat, a: Tid, t: nat)
    requires IsRun(manager, states, labels) && Init(states[0]) && i < |labels|
    requires IsBlocked(states[i], a) && WaitNode(t, a) in Pending(states[i])
    ensures labels[i] == EndPass ==> states[i].now < t
    ensures IsBlocked(states[i + 1], a) ==> WaitNode(t, a) in Pending(states[i + 1])
    ensures !IsBlocked(states[i + 1], a) && labels[i] != Kill(a) ==>
              a in states[i + 1].threads && states[i + 1].threads[a] == Ready
  {
    assert PassInv(states[i]) by { RunKeepsInv(manager, states, labels, i); }
    var s, l, s' := states[i], labels[i], states[i + 1];
    assert StepAt(manager, states, labels, i);
    if l.EndPass? { PassLeavesNothingDue(manager, s, s'); }
    if IsBlocked(s', a) { BlockedStaysArmed(manager, s, l, s', a, t); }
    else if l != Kill(a) { BlockedBecomesReady(manager, s, l, s', a); }
  }

  /** An unconsumed node is a wakeup to come: once a pass is completed at or after the
      deadline, the thread has been made ready. */
  lemma {:induction false} ArmedIsWoken(manager: Tid, states: seq<State>, labels: seq<Label>,
                                        i: nat, j: nat, a: Tid, t: nat) returns (k: nat)
    requires IsRun(manager, states, labels) && Init(states[0])
    requires i <= j < |labels| && labels[j] == EndPass && t <= states[j].now
    requires forall x :: i <= x < j ==> labels[x] != Kill(a)
    requires IsBlocked(states[i], a) && WaitNode(t, a) in Pending(states[i])
    ensures i < k <= j && a in states[k].threads && states[k].threads[a] == Ready
    decreases j - i
  {
    ArmedStepAt(manager, states, labels, i, a, t);
    if IsBlocked(states[i + 1], a) { k := ArmedIsWoken(manager, states, labels, i + 1, j, a, t); }
    else { k := i + 1; }
  }

  /** The timer's guarantee to a caller of `enqueue`: any pass completed at or after the
      deadline has made the sleeping thread ready, whatever happened in between. */
  lemma PassWakesSleeper(manager: Tid, states: seq<State>, labels: seq<Label>,
                         i: nat, j: nat, a: Tid, t: nat) returns (k: nat)
    requires IsRun(manager, states, labels) && Init(states[0])
    requires i <= j < |labels| && labels[j] == EndPass && t <= states[j].now
    requires forall x :: i <= x < j ==> labels[x] != Kill(a)
    requires SleepsUntil(states[i], a, t)
    ensures i < k <= j && a in states[k].threads && states[k].threads[a] == Ready
  {
    NoLostTimerWakeup(manager, states, labels, i, a, t);
    k := ArmedIsWoken(manager, states, labels, i, j, a, t);
  }

  // ---------------------------------------------------------------- one call of enqueue

  /** Step `c` is a call of `enqueue` by `a`, and `a` has not run on from it by state `i`. */
  ghost predicate IsCallOf(states: seq<State>, labels: seq<Label>, c: nat, i: nat, a: Tid, cs: Conditions)
    requires |states| == |labels| + 1
  {
    && c < i < |states| && labels[c] == Call(cs) && states[c].cur == a
    && forall x :: c <= x < i ==> !RunsOn(states[x], labels[x], a)
  }

  predicate RunsOn(s: State, l: Label, a: Tid) {
    l.Resume? && s.cur == a
  }

  /** The call has not blocked its thread, or has woken it again. */
  predicate IsEarly(pc: Pc) {
    pc.Pushing? || pc.PushReady? || pc.Guarding? || pc.Blockable? || (pc.Returned? && !pc.slept)
  }

  lemma AdvanceStaysInCall(s: State, lockBusy: bool, s': State)
    requires s.cur in s.pcs && AdvanceStep(s, lockBusy, s')
    ensures InCall(s.pcs[s.cur]) && s.cur in s'.pcs && InCall(s'.pcs[s.cur])
    ensures s'.pcs[s.cur].conds == s.pcs[s.cur].conds
    ensures IsEarly(s'.pcs[s.cur]) && IsBlocked(s', s.cur) ==> IsEarly(s.pcs[s.cur]) && IsBlocked(s, s.cur)
  {
  }

  /** Within a call nobody but the call itself blocks its thread. */
  lemma StepStaysInCall(manager: Tid, s: State, l: Label, s': State, a: Tid)
    requires Next(manager, s, l, s') && a in s.pcs && InCall(s.pcs[a]) && !RunsOn(s, l, a)
    ensures a in s'.pcs && InCall(s'.pcs[a]) && s'.pcs[a].conds == s.pcs[a].conds
    ensures IsEarly(s'.pcs[a]) && IsBlocked(s', a) ==> IsEarly(s.pcs[a]) && IsBlocked(s, a)
  {
    if l.Advance? {
      if a == s.cur { AdvanceStaysInCall(s, l.lockBusy, s'); }
      else {
        AdvanceTouchesOnlySelf(s, l.lockBusy, s');
        assert s'.pcs[a] == s.pcs[a];
      }
    }
  }

  /** Where `a` stands in its call of `cs`; `since` is whether it was blocked all along. */
  ghost predicate CallAt(s: State, a: Tid, cs: Conditions, since: bool) {
    && a in s.pcs && InCall(s.pcs[a]) && s.pcs[a].conds == cs
    && (IsEarly(s.pcs[a]) && IsBlocked(s, a) ==> since)
  }

  ghost predicate BlockedSince(states: seq<State>, c: nat, i: nat, a: Tid)
    requires i < |states|
  {
    forall y :: c <= y <= i ==> IsBlocked(states[y], a)
  }

  lemma CallStarts(manager: Tid, s: State, l: Label, s': State, cs: Conditions)
    requires Next(manager, s, l, s') && l == Call(cs)
    ensures CallAt(s', s.cur, cs, IsBlocked(s, s.cur) && IsBlocked(s', s.cur))
  {
  }

  lemma {:induction false} CallSoFar(manager: Tid, states: seq<State>, labels: seq<Label>,
                                     c: nat, i: nat, a: Tid, cs: Conditions)
    requires IsRun(manager, states, labels) && IsCallOf(states, labels, c, i, a, cs)
    ensures CallAt(states[i], a, cs, BlockedSince(states, c, i, a))
    decreases i
  {
    assert StepAt(manager, states, labels, i - 1);
    if i == c + 1 {
      CallStarts(manager, states[c], labels[c], states[i], cs);
    } else {
      CallSoFar(manager, states, labels, c, i - 1, a, cs);
      assert !RunsOn(states[i - 1], labels[i - 1], a);
      StepStaysInCall(manager, states[i - 1], labels[i - 1], states[i], a);
    }
  }

  /** A call that returns without having put its thread to sleep leaves it blocked if and only
      if it was blocked when it made the call and was not woken since. */
  lemma EarlyReturnIsBlockedIff(manager: Tid, states: seq<State>, labels: seq<Label>,
                                c: nat, i: nat, a: Tid, cs: Conditions)
    requires IsRun(manager, states, labels) && IsCallOf(states, labels, c, i, a, cs)
    ensures a in states[i].pcs && states[i].pcs[a].Returned? && !states[i].pcs[a].slept ==>
              (IsBlocked(states[i], a) <==> BlockedSince(states, c, i, a))
  {
    CallSoFar(manager, states, labels, c, i, a, cs);
  }

  /** The timer's guarantee to one call of `enqueue`, whatever happened before it: if the
      caller was not blocked when it made the call, and is blocked once the call has returned,
      each deadline of the call has its node in the heap. */
  lemma CallLosesNoWakeup(manager: Tid, states: seq<State>, labels: seq<Label>,
                          c: nat, i: nat, a: Tid, cs: Conditions, t: nat)
    requires IsRun(manager, states, labels) && Init(states[0]) && IsCallOf(states, labels, c, i, a, cs)
    requires !IsBlocked(states[c], a) && HasDeadline(cs, t)
    requires a in states[i].pcs && states[i].pcs[a].Returned? && IsBlocked(states[i], a)
    ensures SleepsUntil(states[i], a, t) && WaitNode(t, a) in Pending(states[i])
  {
    CallSoFar(manager, states, labels, c, i, a, cs);
    NoLostTimerWakeup(manager, states, labels, i, a, t);
  }

  /** So any pass completed at or after the deadline has made the caller ready. */
  lemma PassWakesCaller(manager: Tid, states: seq<State>, labels: seq<Label>,
                        c: nat, i: nat, j: nat, a: Tid, cs: Conditions, t: nat) returns (k: nat)
    requires IsRun(manager, states, labels) && Init(states[0]) && IsCallOf(states, labels, c, i, a, cs)
    requires !IsBlocked(states[c], a) && HasDeadline(cs, t)
    requires a in states[i].pcs && states[i].pcs[a].Returned? && IsBlocked(states[i], a)
    requires i <= j < |labels| && labels[j] == EndPass && t <= states[j].now
    requires forall x :: i <= x < j ==> labels[x] != Kill(a)
    ensures i < k <= j && a in states[k].threads && states[k].threads[a] == Ready
  {
    CallLosesNoWakeup(manager, states, labels, c, i, a, cs, t);
    k := ArmedIsWoken(manager, states, labels, i, j, a, t);
  }

  // ---------------------------------------------------------------- the window inside enqueue

  /** Blocked, not running, and no node left that a pass could act on. */
  ghost predicate IsStranded(s: State, a: Tid) {
    IsBlocked(s, a) && s.cur != a && PassInv(s) && forall n :: n in Pending(s) ==> n.id != a
  }

  lemma StrandedPassStep(manager: Tid, s: State, l: Label, s': State, a: Tid)
    requires Next(manager, s, l, s') && IsStranded(s, a)
    requires l.BeginPass? || l.WakeTop? || l.PopTop? || l.EndPass?
    ensures IsStranded(s', a)
  {
    if l.PopTop? { TopIsUnique(s.heap, l.node, s.pass.top); }
    if l.WakeTop? { assert l.node in Pending(s); }
    assert forall n :: n in Pending(s') ==> n in Pending(s);
  }

  lemma StrandedPlainStep(manager: Tid, s: State, l: Label, s': State, a: Tid)
    requires Next(manager, s, l, s') && IsStranded(s, a) && l != OtherWake(a) && l != Kill(a)
    requires !(l.BeginPass? || l.WakeTop? || l.PopTop? || l.EndPass? || l.Advance?)
    ensures IsStranded(s', a)
  {
    assert s'.heap == s.heap && s'.pass == s.pass && s.now <= s'.now;
    assert Pending(s') == Pending(s) && PassInv(s');
  }

  lemma StrandedAdvance(s: State, lockBusy: bool, s': State, a: Tid)
    requires s.cur in s.pcs && AdvanceStep(s, lockBusy, s') && IsStranded(s, a)
    ensures IsStranded(s', a)
  {
    AdvanceTouchesOnlySelf(s, lockBusy, s');
    assert PassInv(s');
  }

  lemma StrandedStep(manager: Tid, s: State, l: Label, s': State, a: Tid)
    requires Next(manager, s, l, s') && IsStranded(s, a) && l != OtherWake(a) && l != Kill(a)
    ensures IsStranded(s', a)
  {
    if l.Advance? {
      StrandedAdvance(s, l.lockBusy, s', a);
    } else if l.BeginPass? || l.WakeTop? || l.PopTop? || l.EndPass? {
      StrandedPassStep(manager, s, l, s', a);
    } else {
      StrandedPlainStep(manager, s, l, s', a);
    }
  }

  /** Nothing but an outside wake or a kill helps a stranded thread. */
  lemma {:induction false} StrandedForever(manager: Tid, states: seq<State>, labels: seq<Label>, a: Tid, i: nat)
    requires IsRun(manager, states, labels) && i < |states| && IsStranded(states[0], a)
    requires forall x :: 0 <= x < |labels| ==> labels[x] != OtherWake(a) && labels[x] != Kill(a)
    ensures IsStranded(states[i], a)
  {
    if i > 0 {
      StrandedForever(manager, states, labels, a, i - 1);
      assert StepAt(manager, states, labels, i - 1) && labels[i - 1] != OtherWake(a);
      StrandedStep(manager, states[i - 1], labels[i - 1], states[i], a);
    }
  }

  /** In a call made by a thread that was not blocked, the only place where the thread can be
      blocked and lack a node for one of its deadlines is between `try_block` and the second
      test of that entry, with the deadline passed. */
  lemma UnarmedOnlyInWindow(manager: Tid, states: seq<State>, labels: seq<Label>,
                            c: nat, i: nat, a: Tid, cs: Conditions, e: nat)
    requires IsRun(manager, states, labels) && Init(states[0]) && IsCallOf(states, labels, c, i, a, cs)
    requires !IsBlocked(states[c], a) && IsBlocked(states[i], a)
    requires e < |cs| && IsTimer(cs[e]) && WaitNode(cs[e].cond.deadline, a) !in Pending(states[i])
    ensures a in states[i].pcs && cs[e].cond.deadline <= states[i].now
    ensures var pc := states[i].pcs[a]; pc.Unblocking? || (pc.Rechecking? && pc.at <= e)
  {
    CallSoFar(manager, states, labels, c, i, a, cs);
    RunKeepsInv(manager, states, labels, i);
    assert ThreadInv(states[i], a);
  }

  /** Appends one step to a run. */
  lemma Extend(manager: Tid, states: seq<State>, labels: seq<Label>, l: Label, s': State)
    returns (states': seq<State>, labels': seq<Label>)
    requires IsRun(manager, states, labels) && Next(manager, states[|states| - 1], l, s')
    ensures IsRun(manager, states', labels') && states'[0] == states[0] && states'[|states'| - 1] == s'
    ensures states' == states + [s'] && labels' == labels + [l]
  {
    states', labels' := states + [s'], labels + [l];
    forall i | 0 <= i < |labels'| ensures StepAt(manager, states', labels', i) {
      if i < |labels| { assert StepAt(manager, states, labels, i) && states'[i + 1] == states[i + 1]; }
    }
  }

  /** A run in which thread 1 queues its deadline and stops right before `try_block`. */
  lemma QueuedRun(cs: Conditions) returns (states: seq<State>, labels: seq<Label>, s: State)
    requires cs == [QueueCondition(Timer, Time(5))]
    ensures IsRun(0, states, labels) && Init(states[0]) && states[|states| - 1] == s
    ensures s == State(0, true, {}, map[0 := Ready, 1 := Ready], multiset{WaitNode(5, 1)}, NoPass,
                       map[0 := Idle, 1 := Blockable(cs, 0)], 1)
  {
    s := State(0, true, {}, map[0 := Ready, 1 := Ready], multiset{}, NoPass, map[0 := Idle, 1 := Idle], 1);
    states, labels := [s], [];
    states, labels := Extend(0, states, labels, Call(cs), Goto(s, Pushing(cs, 0)));
    states, labels := Extend(0, states, labels, Advance(false), Goto(s, PushReady(cs, 0)));
    s := s.(heap := multiset{WaitNode(5, 1)});
    states, labels := Extend(0, states, labels, Advance(false), Goto(s, Pushing(cs, 1)));
    states, labels := Extend(0, states, labels, Advance(false), Goto(s, Guarding(cs, 0, 0)));
    states, labels := Extend(0, states, labels, Advance(false), Goto(s, Guarding(cs, 0, 1)));
    s := Goto(s, Blockable(cs, 0));
    states, labels := Extend(0, states, labels, Advance(false), s);
  }

  /** That window is real: the pass consumes the node while the thread is still ready,
      the thread then blocks itself and is preempted before the second test. */
  lemma WindowStrandsThread() returns (states: seq<State>, labels: seq<Label>)
    ensures IsRun(0, states, labels) && Init(states[0])
    ensures var s := states[|states| - 1];
            IsStranded(s, 1) && 1 in s.pcs && s.pcs[1] == Rechecking([QueueCondition(Timer, Time(5))], 0)
  {
    var cs := [QueueCondition(Timer, Time(5))];
    var n := WaitNode(5, 1);
    var s: State;
    states, labels, s := QueuedRun(cs);
    states, labels := Extend(0, states, labels, Tick(5), s.(now := 5));
    s := s.(now := 5, cur := 0);
    states, labels := Extend(0, states, labels, Dispatch(0), s);
    states, labels := Extend(0, states, labels, BeginPass, s.(pass := Scanning));
    assert Wake(s.threads, 1) == s.threads;
    states, labels := Extend(0, states, labels, WakeTop(n), s.(pass := Popping(n)));
    s := s.(heap := multiset{});
    states, labels := Extend(0, states, labels, PopTop(n), s.(pass := Scanning));
    states, labels := Extend(0, states, labels, EndPass, s);
    states, labels := Extend(0, states, labels, Dispatch(1), s.(cur := 1));
    s := Goto(s.(cur := 1), Rechecking(cs, 0)).(threads := s.threads[1 := Blocking]);
    states, labels := Extend(0, states, labels, Advance(false), s);
    states, labels := Extend(0, states, labels, Dispatch(0), s.(cur := 0));
  }

  /** A run in which the yield of thread 1 returns to it while it is blocked until 5. */
  lemma RunsOnBlocked(cs: Conditions) returns (states: seq<State>, labels: seq<Label>, s: State)
    requires cs == [QueueCondition(Timer, Time(5))]
    ensures IsRun(0, states, labels) && Init(states[0]) && states[|states| - 1] == s
    ensures s == State(4, true, {}, map[0 := Ready, 1 := Blocking], multiset{WaitNode(5, 1)}, NoPass,
                       map[0 := Idle, 1 := Idle], 1)
  {
    states, labels, s := QueuedRun(cs);
    s := Goto(s, Rechecking(cs, 0)).(threads := s.threads[1 := Blocking]);
    states, labels := Extend(0, states, labels, Advance(false), s);
    states, labels := Extend(0, states, labels, Advance(false), Goto(s, Rechecking(cs, 1)));
    states, labels := Extend(0, states, labels, Advance(false), Goto(s, Returned(cs, true)));
    s := Goto(s, Idle);
    states, labels := Extend(0, states, labels, Resume, s);
    s := s.(now := 4);
    states, labels := Extend(0, states, labels, Tick(4), s);
  }

  /** The caller's not being blocked is needed: a thread that runs on while blocked can call
      `enqueue` again, which returns at once on a deadline that has passed, and is then
      blocked with a deadline that no node stands for. */
  lemma BlockedCallerIsUnarmed() returns (states: seq<State>, labels: seq<Label>, c: nat, cs: Conditions)
    ensures IsRun(0, states, labels) && Init(states[0])
    ensures IsCallOf(states, labels, c, |labels|, 1, cs) && IsBlocked(states[c], 1) && HasDeadline(cs, 3)
    ensures var s := states[|labels|];
            1 in s.pcs && s.pcs[1].Returned? && IsBlocked(s, 1) && WaitNode(3, 1) !in Pending(s)
  {
    var s: State;
    states, labels, s := RunsOnBlocked([QueueCondition(Timer, Time(5))]);
    c, cs := |labels|, [QueueCondition(Timer, Time(3))];
    states, labels := Extend(0, states, labels, Call(cs), Goto(s, Pushing(cs, 0)));
    states, labels := Extend(0, states, labels, Advance(false), Goto(s, Returned(cs, false)));
    assert cs[0] == QueueCondition(Timer, Time(3));
  }

  // ---------------------------------------------------------------- the timer queue as an object

  /** The table after waking every thread of `ids`. */
  function WakeAll(table: map<Tid, TaskState>, ids: set<Tid>): map<Tid, TaskState> {
    map a | a in table ::
      if a in ids && (table[a] == Blocking || table[a] == Sleeping) then Ready else table[a]
  }

  ghost function DueIds(heap: multiset<WaitNode>, now: nat): set<Tid> {
    set n | n in heap && n.deadline <= now :: n.id
  }

  /** `TimeWaitQueue`; the binary heap is kept as the multiset of its nodes. */
  class TimeWaitQueue {
    var inner: multiset<WaitNode>

    constructor ()
      ensures inner == multiset{}
    {
      inner := multiset{};
    }

    method Enqueue(id: Tid, cond: WaitCondition) returns (queued: bool)
      modifies this
      ensures queued == cond.Time?
      ensures inner == if cond.Time? then old(inner) + multiset{WaitNode(cond.deadline, id)} else old(inner)
    {
      if !cond.Time? { return false; }
      inner := inner + multiset{WaitNode(cond.deadline, id)};
      return true;
    }

    /** An uninterrupted pass: exactly the expired nodes go, and exactly their threads
        are woken. */
    method Signal(table: map<Tid, TaskState>, now: nat) returns (woken: map<Tid, TaskState>)
      modifies this
      ensures forall n: WaitNode :: inner[n] == if n.deadline <= now then 0 else old(inner)[n]
      ensures woken == WakeAll(table, DueIds(old(inner), now))
    {
      woken := table;
      ghost var ids: set<Tid> := {};
      while inner != multiset{}
        invariant forall n: WaitNode :: now < n.deadline ==> inner[n] == old(inner)[n]
        invariant ids + DueIds(inner, now) == DueIds(old(inner), now)
        invariant woken == WakeAll(table, ids)
        decreases |inner|
      {
        ghost var some := NonEmptyHeapHasTop(inner);
        var top :| top in inner && IsTop(inner, top);
        if now < top.deadline {
          TopDueLast(inner, top, now);
          break;
        }
        DueIdsWithout(inner, top, now);
        WakeOneMore(table, ids, top.id);
        woken := Wake(woken, top.id);
        inner := inner - multiset{top};
        ids := ids + {top.id};
      }
      assert DueIds(inner, now) == {};
      assert ids == DueIds(old(inner), now);
    }
  }

  lemma WakeOneMore(table: map<Tid, TaskState>, ids: set<Tid>, a: Tid)
    ensures Wake(WakeAll(table, ids), a) == WakeAll(table, ids + {a})
  {
  }

  lemma DueIdsWithout(heap: multiset<WaitNode>, top: WaitNode, now: nat)
    requires top in heap && top.deadline <= now
    ensures {top.id} + DueIds(heap - multiset{top}, now) == DueIds(heap, now)
  {
    forall n | n in heap ensures n == top || n in heap - multiset{top} { }
  }
}