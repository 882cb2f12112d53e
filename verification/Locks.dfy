/** The counting semaphore behind every lock of the kernel, at the granularity of its
    atomic accesses, and the mutex and reader-writer lock built on it.

    An agent is one attempt to take permits together with the guard it yields; a thread
    that holds several guards is several agents.  Any number of agents interleave. */
module Locks {

  const USIZE_MAX: nat := 0xFFFF_FFFF_FFFF_FFFF

  datatype Agent =
    | Ready(want: nat, blocking: bool)               // try_down_n / down_n called, counter not read yet
    | Loaded(want: nat, blocking: bool, seen: nat)   // fetch_update has a value to start from
    | Waiting(want: nat)                             // inside the wait strategy
    | Holding(permits: nat)                          // guard alive
    | Failed                                         // try_down_n answered LockContended
    | Done                                           // guard dropped

  datatype State = State(counter: nat, agents: seq<Agent>)

  datatype Access =
    | Arrive(want: nat, blocking: bool)   // somebody calls down_n or try_down_n
    | Load                                // the first read of fetch_update
    | Exchange(spurious: bool)            // its compare-exchange, which may fail without cause
    | Refuse                              // checked_sub answered None
    | Retry                               // the wait strategy came back
    | Up                                  // the guard gives all its permits back
    | Downgrade                           // a writer keeps one permit

  /** Wrapping addition, as `fetch_add` does it. */
  function WrappingAdd(a: nat, b: nat): nat {
    (a + b) % (USIZE_MAX + 1)
  }

  function Held(a: Agent): nat {
    if a.Holding? then a.permits else 0
  }

  function TotalHeld(agents: seq<Agent>): nat {
    if agents == [] then 0 else TotalHeld(agents[..|agents| - 1]) + Held(agents[|agents| - 1])
  }

  /** One atomic access by agent `i`, in a semaphore of `n` permits. */
  ghost predicate Next(n: nat, s: State, i: nat, l: Access, s': State) {
    match l
    case Arrive(want, blocking) =>
      want <= USIZE_MAX && s' == s.(agents := s.agents + [Ready(want, blocking)])
    case Load =>
      i < |s.agents| && s.agents[i].Ready? &&
      s' == s.(agents := s.agents[i := Loaded(s.agents[i].want, s.agents[i].blocking, s.counter)])
    case Exchange(spurious) =>
      i < |s.agents| && s.agents[i].Loaded? &&
      var a := s.agents[i];
      a.want <= a.seen &&
      if s.counter == a.seen && !spurious
      then s' == State(s.counter - a.want, s.agents[i := Holding(a.want)])
      else s' == s.(agents := s.agents[i := a.(seen := s.counter)])
    case Refuse =>
      i < |s.agents| && s.agents[i].Loaded? && s.agents[i].seen < s.agents[i].want &&
      s' == s.(agents := s.agents[i := if s.agents[i].blocking then Waiting(s.agents[i].want) else Failed])
    case Retry =>
      i < |s.agents| && s.agents[i].Waiting? &&
      s' == s.(agents := s.agents[i := Ready(s.agents[i].want, true)])
    case Up =>
      i < |s.agents| && s.agents[i].Holding? &&
      s' == State(WrappingAdd(s.counter, s.agents[i].permits), s.agents[i := Done])
    case Downgrade =>
      i < |s.agents| && s.agents[i] == Holding(n) && n >= 1 &&
      s' == State(WrappingAdd(s.counter, n - 1), s.agents[i := Holding(1)])
  }

  datatype Event = Event(agent: nat, access: Access)

  ghost predicate IsRun(n: nat, states: seq<State>, events: seq<Event>) {
    && |states| == |events| + 1 && states[0] == State(n, [])
    && (forall k :: 0 <= k < |events| ==> Next(n, states[k], events[k].agent, events[k].access, states[k + 1]))
  }

  /** Conservation: free permits and held permits make up the initial count. */
  ghost predicate Inv(n: nat, s: State) {
    s.counter + TotalHeld(s.agents) == n
  }

  lemma {:induction false} TotalHeldUpdate(agents: seq<Agent>, i: nat, a: Agent)
    requires i < |agents|
    ensures TotalHeld(agents[i := a]) == TotalHeld(agents) - Held(agents[i]) + Held(a)
  {
    var last := |agents| - 1;
    if i == last {
      assert agents[i := a][..last] == agents[..last];
    } else {
      assert agents[i := a][..last] == agents[..last][i := a];
      TotalHeldUpdate(agents[..last], i, a);
    }
  }

  lemma {:induction false} TotalHeldBounds(agents: seq<Agent>, i: nat)
    requires i < |agents|
    ensures Held(agents[i]) <= TotalHeld(agents)
  {
    if i < |agents| - 1 { TotalHeldBounds(agents[..|agents| - 1], i); }
  }

  lemma TotalHeldPair(agents: seq<Agent>, i: nat, j: nat)
    requires i < |agents| && j < |agents| && i != j
    ensures Held(agents[i]) + Held(agents[j]) <= TotalHeld(agents)
  {
    TotalHeldUpdate(agents, i, Done);
    TotalHeldBounds(agents[i := Done], j);
  }

  lemma StepKeepsInv(n: nat, s: State, i: nat, l: Access, s': State)
    requires n <= USIZE_MAX && Inv(n, s) && Next(n, s, i, l, s')
    ensures Inv(n, s')
  {
    if l.Arrive? {
      assert s'.agents[..|s.agents|] == s.agents;
    } else {
      TotalHeldUpdate(s.agents, i, s'.agents[i]);
      TotalHeldBounds(s.agents, i);
    }
  }

  /** In every run of any number of agents the permits are conserved, so the counter
      neither overflows nor goes below zero. */
  lemma {:induction false} PermitsAreConserved(n: nat, states: seq<State>, events: seq<Event>, k: nat)
    requires n <= USIZE_MAX && IsRun(n, states, events) && k < |states|
    ensures states[k].counter + TotalHeld(states[k].agents) == n
  {
    if k > 0 {
      PermitsAreConserved(n, states, events, k - 1);
      StepKeepsInv(n, states[k - 1], events[k - 1].agent, events[k - 1].access, states[k]);
    }
  }

  /** `fetch_add` never wraps around. */
  lemma ReleaseNeverWraps(n: nat, states: seq<State>, events: seq<Event>, k: nat, i: nat)
    requires n <= USIZE_MAX && IsRun(n, states, events) && k < |states|
    requires i < |states[k].agents| && states[k].agents[i].Holding?
    ensures var s := states[k];
            WrappingAdd(s.counter, s.agents[i].permits) == s.counter + s.agents[i].permits <= n
  {
    PermitsAreConserved(n, states, events, k);
    TotalHeldBounds(states[k].agents, i);
  }

  /** `try_down_n` goes by the free permits: at each look at the counter it will refuse if
      and only if granting the request would exceed the permits there are. */
  lemma RefusesIffContended(n: nat, s: State, i: nat, l: Access, s': State)
    requires n <= USIZE_MAX && Inv(n, s) && Next(n, s, i, l, s')
    requires (l.Load? || l.Exchange?) && s'.agents[i].Loaded?
    ensures s'.agents[i].seen < s'.agents[i].want <==> n < TotalHeld(s'.agents) + s'.agents[i].want
  {
    TotalHeldUpdate(s.agents, i, s'.agents[i]);
  }

  // ---------------------------------------------------------------- mutex: one permit

  ghost predicate AsMutex(s: State) {
    forall i :: 0 <= i < |s.agents| ==>
      match s.agents[i]
      case Ready(w, _) => w == 1
      case Loaded(w, _, _) => w == 1
      case Waiting(w) => w == 1
      case Holding(p) => p == 1
      case _ => true
  }

  ghost predicate MutexUse(e: Event) {
    (e.access.Arrive? ==> e.access.want == 1) && !e.access.Downgrade?
  }

  lemma {:induction false} MutexAsksForOne(states: seq<State>, events: seq<Event>, k: nat)
    requires IsRun(1, states, events) && k < |states|
    requires forall x :: 0 <= x < |events| ==> MutexUse(events[x])
    ensures AsMutex(states[k])
  {
    if k > 0 {
      MutexAsksForOne(states, events, k - 1);
      assert MutexUse(events[k - 1]);
      assert Next(1, states[k - 1], events[k - 1].agent, events[k - 1].access, states[k]);
    }
  }

  /** At most one guard of a mutex is alive, and the counter tells whether one is. */
  lemma MutualExclusion(states: seq<State>, events: seq<Event>, k: nat, i: nat, j: nat)
    requires IsRun(1, states, events) && k < |states|
    requires forall x :: 0 <= x < |events| ==> MutexUse(events[x])
    requires i < |states[k].agents| && states[k].agents[i].Holding?
    ensures states[k].counter == 0
    ensures j < |states[k].agents| && states[k].agents[j].Holding? ==> i == j
  {
    PermitsAreConserved(1, states, events, k);
    MutexAsksForOne(states, events, k);
    TotalHeldBounds(states[k].agents, i);
    if j < |states[k].agents| && i != j { TotalHeldPair(states[k].agents, i, j); }
  }

  // ---------------------------------------------------------------- reader-writer lock

  /** Readers take one permit, a writer takes all of them. */
  predicate IsShare(w: nat) {
    w == 1 || w == USIZE_MAX
  }

  ghost predicate AsRwLock(s: State) {
    forall i :: 0 <= i < |s.agents| ==>
      match s.agents[i]
      case Ready(w, _) => IsShare(w)
      case Loaded(w, _, _) => IsShare(w)
      case Waiting(w) => IsShare(w)
      case Holding(p) => IsShare(p)
      case _ => true
  }

  ghost predicate RwLockUse(e: Event) {
    e.access.Arrive? ==> IsShare(e.access.want)
  }

  predicate IsWriter(a: Agent) { a == Holding(USIZE_MAX) }

  lemma {:induction false} RwLockAsksForShares(states: seq<State>, events: seq<Event>, k: nat)
    requires IsRun(USIZE_MAX, states, events) && k < |states|
    requires forall x :: 0 <= x < |events| ==> RwLockUse(events[x])
    ensures AsRwLock(states[k])
  {
    if k > 0 {
      RwLockAsksForShares(states, events, k - 1);
      assert RwLockUse(events[k - 1]);
      assert Next(USIZE_MAX, states[k - 1], events[k - 1].agent, events[k - 1].access, states[k]);
    }
  }

  /** A writer is alone: no other guard, reading or writing, is alive beside it. */
  lemma WriterIsAlone(states: seq<State>, events: seq<Event>, k: nat, i: nat, j: nat)
    requires IsRun(USIZE_MAX, states, events) && k < |states|
    requires forall x :: 0 <= x < |events| ==> RwLockUse(events[x])
    requires i < |states[k].agents| && IsWriter(states[k].agents[i])
    requires j < |states[k].agents| && i != j
    ensures !states[k].agents[j].Holding?
  {
    PermitsAreConserved(USIZE_MAX, states, events, k);
    RwLockAsksForShares(states, events, k);
    TotalHeldPair(states[k].agents, i, j);
  }

  /** A downgrade passes from one writer to one reader with nobody in between: right
      after it this guard reads, no guard writes, and every other guard is as before. */
  lemma DowngradeIsAtomic(states: seq<State>, events: seq<Event>, k: nat)
    requires IsRun(USIZE_MAX, states, events) && k < |events|
    requires forall x :: 0 <= x < |events| ==> RwLockUse(events[x])
    requires events[k].access.Downgrade?
    ensures var i := events[k].agent;
            && i < |states[k].agents| && IsWriter(states[k].agents[i])
            && states[k + 1].agents == states[k].agents[i := Holding(1)]
            && states[k + 1].counter == USIZE_MAX - 1
    ensures var after := states[k + 1].agents;
            forall j :: 0 <= j < |after| && after[j].Holding? ==> j == events[k].agent
  {
    var i := events[k].agent;
    assert Next(USIZE_MAX, states[k], i, events[k].access, states[k + 1]);
    PermitsAreConserved(USIZE_MAX, states, events, k);
    TotalHeldBounds(states[k].agents, i);
    forall j | 0 <= j < |states[k].agents| && j != i ensures !states[k].agents[j].Holding? {
      WriterIsAlone(states, events, k, i, j);
    }
  }
}
