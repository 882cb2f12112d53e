/** The threads' machine together with the kernel heap's lock. Growing the run queue or the
    thread table takes memory while their locks are held, and whoever waits for the heap's
    lock waits by yielding. */
module HeapLock {

  import opened KernelTypes
  import opened Threads

  /** `heap` is the thread inside the allocator. `full` says that the collection whose lock the
      current thread holds must grow before the thread can go on. */
  datatype Machine = Machine(s: State, heap: Option<Tid>, full: bool)

  datatype Step =
    | Enter                        // the current thread takes the heap's lock
    | Leave
    | Act(l: Label, full: bool)    // a step of the threads' machine

  /** The actions that may have to grow a collection: pushing onto the run queue, reserving
      space in it, and inserting into the table. */
  predicate IsGrowing(pc: Pc) {
    pc.AnnounceHeld? || pc.CommitHeld? || pc.InsertHeld?
  }

  predicate HoldsKernelLock(pc: Pc) {
    HoldsQueue(pc) || HoldsTable(pc)
  }

  /** The step takes the lock of the run queue or the table. */
  predicate TakesKernelLock(s: State, l: Label)
    requires s.cur in s.pcs
  {
    l.Proceed? && (WantsQueue(s.pcs[s.cur]) || s.pcs[s.cur].Inserting? || s.pcs[s.cur].Popped?)
  }

  /** A thread inside the allocator does nothing else; context switches go on as ever. Nobody
      enters the allocator between two actions of this machine while holding a kernel lock:
      growing a collection is part of the action that needs it, and needs the heap's lock. */
  ghost predicate Next(reaper: Tid, m: Machine, a: Step, m': Machine) {
    && m.s.cur in m.s.pcs
    && match a
       case Enter => m.heap.None? && !HoldsKernelLock(m.s.pcs[m.s.cur]) && m' == m.(heap := Some(m.s.cur))
       case Leave => m.heap == Some(m.s.cur) && m' == m.(heap := None)
       case Act(l, full) =>
         && Threads.Next(reaper, m.s, l, m'.s) && m'.heap == m.heap
         && m'.full == (if TakesKernelLock(m.s, l) then full else m.full)
         && (!l.Switch? ==> m.heap != Some(m.s.cur))
         && (!l.Switch? && IsGrowing(m.s.pcs[m.s.cur]) && m.full ==> m.heap.None?)
  }

  ghost predicate StepAt(reaper: Tid, ms: seq<Machine>, steps: seq<Step>, i: nat)
    requires |ms| == |steps| + 1 && i < |steps|
  {
    Next(reaper, ms[i], steps[i], ms[i + 1])
  }

  ghost predicate IsRun(reaper: Tid, ms: seq<Machine>, steps: seq<Step>) {
    && |ms| == |steps| + 1
    && forall i {:trigger StepAt(reaper, ms, steps, i)} :: 0 <= i < |steps| ==> StepAt(reaper, ms, steps, i)
  }

  /** The threads' invariant, and whoever holds a kernel lock is not inside the allocator. */
  ghost predicate Good(reaper: Tid, m: Machine) {
    && Inv(reaper, m.s)
    && (HoldsKernelLock(m.s.pcs[m.s.cur]) ==> m.heap != Some(m.s.cur))
  }

  lemma LocksAreTakenOutside(reaper: Tid, s: State, l: Label, s': State)
    requires Inv(reaper, s) && Threads.Next(reaper, s, l, s') && s'.cur in s'.pcs && HoldsKernelLock(s'.pcs[s'.cur])
    ensures s'.cur == s.cur
  {
    if l.Switch? { assert ThreadInv(reaper, s, s'.cur); }
  }

  lemma StepKeepsGood(reaper: Tid, m: Machine, a: Step, m': Machine)
    requires Good(reaper, m) && Next(reaper, m, a, m')
    ensures Good(reaper, m')
  {
    if a.Act? {
      StepKeepsInv(reaper, m.s, a.l, m'.s);
      if HoldsKernelLock(m'.s.pcs[m'.s.cur]) {
        LocksAreTakenOutside(reaper, m.s, a.l, m'.s);
        if a.l.Switch? { assert m'.s.pcs == m.s.pcs; }
      }
    }
  }

  lemma {:induction false} RunKeepsGood(reaper: Tid, ms: seq<Machine>, steps: seq<Step>, i: nat)
    requires IsRun(reaper, ms, steps) && Good(reaper, ms[0]) && i < |ms|
    ensures Good(reaper, ms[i])
  {
    if i > 0 {
      RunKeepsGood(reaper, ms, steps, i - 1);
      assert StepAt(reaper, ms, steps, i - 1);
      StepKeepsGood(reaper, ms[i - 1], steps[i - 1], ms[i]);
    }
  }

  /** The current thread holds a kernel lock, must grow the collection, and finds another
      thread in the allocator. */
  ghost predicate IsStuck(m: Machine) {
    && m.s.cur in m.s.pcs && IsGrowing(m.s.pcs[m.s.cur]) && m.full
    && m.heap.Some? && m.heap != Some(m.s.cur)
  }

  /** Both threads stand where they stood. */
  ghost predicate StandsStill(m: Machine, m': Machine) {
    && m'.s.cur == m.s.cur && m'.s.pcs == m.s.pcs && m'.heap == m.heap && m'.full == m.full
    && m'.s.queue == m.s.queue && m'.s.lut == m.s.lut
  }

  lemma StuckStep(reaper: Tid, m: Machine, a: Step, m': Machine)
    requires Good(reaper, m) && IsStuck(m) && Next(reaper, m, a, m')
    ensures IsStuck(m') && StandsStill(m, m') && a.Act? && a.l == Switch(None)
  {
    assert HoldsKernelLock(m.s.pcs[m.s.cur]);
    if a.Act? && a.l.Switch? { HeldLockKeepsTheCpu(reaper, m.s, a.l.next, m'.s); }
  }

  lemma StuckStepAt(reaper: Tid, ms: seq<Machine>, steps: seq<Step>, i: nat)
    requires IsRun(reaper, ms, steps) && Good(reaper, ms[0]) && i < |steps| && IsStuck(ms[i])
    ensures IsStuck(ms[i + 1]) && StandsStill(ms[i], ms[i + 1])
    ensures steps[i].Act? && steps[i].l == Switch(None)
  {
    RunKeepsGood(reaper, ms, steps, i);
    assert StepAt(reaper, ms, steps, i);
    StuckStep(reaper, ms[i], steps[i], ms[i + 1]);
  }

  /** The deadlock is permanent: in every run every later step is a context switch that returns
      to the stuck thread; it never gets its memory, and the thread in the allocator never
      runs again. */
  lemma {:induction false} StuckForever(reaper: Tid, ms: seq<Machine>, steps: seq<Step>, i: nat)
    requires IsRun(reaper, ms, steps) && Good(reaper, ms[0]) && IsStuck(ms[0]) && i < |ms|
    ensures IsStuck(ms[i]) && StandsStill(ms[0], ms[i])
    ensures forall x :: 0 <= x < i ==> steps[x].Act? && steps[x].l == Switch(None)
  {
    if i > 0 {
      StuckForever(reaper, ms, steps, i - 1);
      StuckStepAt(reaper, ms, steps, i - 1);
    }
  }

  /** The step by which a holder gets on with growing. */
  function GrowingLabel(pc: Pc): Label {
    if pc.CommitHeld? then Commit else Proceed
  }

  /** The state after it. */
  function Grown(s: State): State
    requires s.cur in s.pcs && IsGrowing(s.pcs[s.cur])
  {
    match s.pcs[s.cur]
    case AnnounceHeld(id) => Goto(s, AnnounceDone(id)).(queue := s.queue + [id])
    case CommitHeld(ids) => Goto(s, CommitDone).(queue := ids)
    case InsertHeld(id) => Goto(s, InsertDone).(lut := s.lut + {id})
  }

  /** Exactly when a holder gets on: it can do so now if there is room or nobody is in the
      allocator, and otherwise no run from here ever lets it. */
  lemma HolderGetsOnIff(reaper: Tid, m: Machine)
    requires Good(reaper, m) && IsGrowing(m.s.pcs[m.s.cur])
    ensures Next(reaper, m, Act(GrowingLabel(m.s.pcs[m.s.cur]), m.full), m.(s := Grown(m.s))) <==> !IsStuck(m)
  {
    assert HoldsKernelLock(m.s.pcs[m.s.cur]);
  }

  lemma OtherStepsDoNotStick(reaper: Tid, m: Machine, l: Label, full: bool, m': Machine)
    requires Good(reaper, m) && Next(reaper, m, Act(l, full), m') && !TakesKernelLock(m.s, l)
    ensures IsStuck(m') ==> IsStuck(m)
  {
    StepKeepsInv(reaper, m.s, l, m'.s);
    if IsGrowing(m'.s.pcs[m'.s.cur]) {
      LocksAreTakenOutside(reaper, m.s, l, m'.s);
      assert m'.s.pcs[m'.s.cur] == m.s.pcs[m.s.cur];
    }
  }

  /** How it comes about: a step leads into the deadlock if and only if it takes the lock of a
      collection that must grow while another thread is in the allocator. */
  lemma BecomesStuckIff(reaper: Tid, m: Machine, a: Step, m': Machine)
    requires Good(reaper, m) && !IsStuck(m) && Next(reaper, m, a, m')
    ensures IsStuck(m') <==>
            && a.Act? && TakesKernelLock(m.s, a.l) && !m.s.pcs[m.s.cur].Popped? && !m.s.pcs[m.s.cur].Logging?
            && a.full && m.heap.Some?
  {
    if a.Act? {
      if TakesKernelLock(m.s, a.l) {
        assert m'.s.cur == m.s.cur && m.s.queueLock.None?;
      } else {
        OtherStepsDoNotStick(reaper, m, a.l, a.full, m');
      }
    }
  }

  /** Threads 0 and 2 and the reaper 1, with 2 adding thread 3. */
  function AddingThree(pc: Pc, lock: Option<Tid>): State {
    State(map[0 := Task(Ready, false), 1 := Task(Ready, false), 2 := Task(Ready, false), 3 := Task(Ready, false)],
          {0, 1, 2}, None, [1, 0, 2], lock, [], 2, map[0 := Idle, 1 := Idle, 2 := pc, 3 := Idle], 4, false)
  }

  /** Thread 2 runs, and thread 0 is in the allocator. */
  function Preempted(): Machine {
    Machine(State(map[0 := Task(Ready, false), 1 := Task(Ready, false), 2 := Task(Ready, false)],
                  {0, 1, 2}, None, [1, 0, 2], None, [], 2, map[0 := Idle, 1 := Idle, 2 := Idle], 3, false),
            Some(0), false)
  }

  lemma LocksFullQueue(m2: Machine) returns (m3: Machine, m4: Machine)
    requires m2 == Preempted()
    ensures Next(1, m2, Act(Build(3), false), m3) && Next(1, m3, Act(Proceed, true), m4) && IsStuck(m4)
  {
    m3 := Machine(AddingThree(Announcing(3), None), Some(0), false);
    m4 := Machine(AddingThree(AnnounceHeld(3), Some(2)), Some(0), true);
  }

  lemma EntersAndIsPreempted() returns (m0: Machine, m1: Machine, m2: Machine)
    ensures Init(1, m0.s) && m0.heap.None? && Next(1, m0, Enter, m1)
    ensures Next(1, m1, Act(Switch(Some(2)), false), m2) && m2 == Preempted()
  {
    m2 := Preempted();
    var s := m2.s.(queue := [2, 1, 0], cur := 0);
    m0, m1 := Machine(s, None, false), Machine(s, Some(0), false);
    SwitchesToTwo(s);
  }

  lemma SwitchesToTwo(s: State)
    requires s == Preempted().s.(queue := [2, 1, 0], cur := 0)
    ensures SwitchStep(s, Some(2), Preempted().s)
  {
    assert [2, 1, 0][1..] + [2] == [1, 0, 2] && 2 in Runnable(s);
  }

  /** The deadlock is real: thread 0 is preempted inside the allocator, and thread 2 goes for a
      full run queue. */
  lemma RunGetsStuck() returns (ms: seq<Machine>, steps: seq<Step>)
    ensures IsRun(1, ms, steps) && Init(1, ms[0].s) && ms[0].heap.None? && IsStuck(ms[|steps|])
    ensures steps == [Enter, Act(Switch(Some(2)), false), Act(Build(3), false), Act(Proceed, true)]
  {
    var m0, m1, m2 := EntersAndIsPreempted();
    var m3, m4 := LocksFullQueue(m2);
    ms, steps := [m0, m1, m2, m3, m4], [Enter, Act(Switch(Some(2)), false), Act(Build(3), false), Act(Proceed, true)];
    forall i | 0 <= i < 4 ensures StepAt(1, ms, steps, i) {
      if i == 0 {} else if i == 1 {} else if i == 2 {} else {}
    }
  }
}
