/** Pipes and the handles that keep them open. A pipe reports the end of its data from a
    count of write handles, which clone and drop hooks maintain wherever handles live. */
module Pipes {

  import opened KernelTypes

  type Byte = bv8

  const USIZE_MAX: nat := 0xffff_ffff_ffff_ffff

  /** `accepted` and `delivered` record the bytes that writes took and reads gave out. */
  datatype Pipe = Pipe(cap: nat, buf: seq<Byte>, readers: int, writers: int, accepted: seq<Byte>, delivered: seq<Byte>)

  /** What a handle refers to. */
  datatype End = PipeEnd(pipe: nat, write: bool) | OtherFile

  /** Where a handle lives: in the descriptor table of a process, or in a variable of some
      running call. */
  datatype Loc = InTable(pid: nat, fd: nat) | InHand(id: nat)

  type Handles = map<Loc, End>

  datatype World = World(pipes: seq<Pipe>, live: Handles)

  datatype Reading = TimedOut | Got(data: seq<Byte>)

  datatype Writing = StorageFull | Took(count: nat)

  // ---- one pipe --------------------------------------------------------------------

  function NewPipe(cap: int): Pipe {
    Pipe(if cap >= 0 then cap else USIZE_MAX, [], 0, 0, [], [])
  }

  function Min(a: nat, b: nat): nat { if a <= b then a else b }

  function ReadResult(p: Pipe, n: nat): Reading {
    if p.buf == [] && p.writers == 0 then TimedOut else Got(p.buf[..Min(n, |p.buf|)])
  }

  function AfterRead(p: Pipe, n: nat): Pipe {
    match ReadResult(p, n)
    case TimedOut => p
    case Got(data) => p.(buf := p.buf[|data|..], delivered := p.delivered + data)
  }

  function WriteResult(p: Pipe, data: seq<Byte>): Writing {
    if p.cap <= |p.buf| then StorageFull else Took(Min(p.cap - |p.buf|, |data|))
  }

  function AfterWrite(p: Pipe, data: seq<Byte>): Pipe {
    match WriteResult(p, data)
    case StorageFull => p
    case Took(count) => p.(buf := p.buf + data[..count], accepted := p.accepted + data[..count])
  }

  /** The clone hook (`delta == 1`) and the drop hook (`delta == -1`) of a handle. */
  function Count(pipes: seq<Pipe>, e: End, delta: int): (r: seq<Pipe>)
    ensures |r| == |pipes|
  {
    if e.OtherFile? || e.pipe >= |pipes| then pipes
    else
      var p := pipes[e.pipe];
      pipes[e.pipe := if e.write then p.(writers := p.writers + delta) else p.(readers := p.readers + delta)]
  }

  // ---- steps -----------------------------------------------------------------------

  datatype Action =
    | Create(cap: int, reader: Loc, writer: Loc)
    | OpenOther(at: Loc)
    | Clone(from: Loc, to: Loc)
    | Move(from: Loc, to: Loc)
    | Drop(at: Loc)
    | Read(via: Loc, n: nat)
    | Write(via: Loc, data: seq<Byte>)

  /** Handles are made from nothing, from a live handle, or moved to an empty place. Bytes
      are written through a live write handle; reading takes any live handle of the pipe. */
  predicate Enabled(w: World, a: Action) {
    match a
    case Create(_, r, wr) => r !in w.live && wr !in w.live && r != wr
    case OpenOther(at) => at !in w.live
    case Clone(from, to) => from in w.live && to !in w.live
    case Move(from, to) => from in w.live && to !in w.live
    case Drop(at) => at in w.live
    case Read(via, _) => via in w.live && w.live[via].PipeEnd? && w.live[via].pipe < |w.pipes|
    case Write(via, _) => via in w.live && w.live[via].PipeEnd? && w.live[via].write && w.live[via].pipe < |w.pipes|
  }

  function Apply(w: World, a: Action): World
    requires Enabled(w, a)
  {
    match a
    case Create(cap, r, wr) =>
      var p := |w.pipes|;
      var pipes := Count(Count(w.pipes + [NewPipe(cap)], PipeEnd(p, false), 1), PipeEnd(p, true), 1);
      World(pipes, w.live[r := PipeEnd(p, false)][wr := PipeEnd(p, true)])
    case OpenOther(at) => w.(live := w.live[at := OtherFile])
    case Clone(from, to) => World(Count(w.pipes, w.live[from], 1), w.live[to := w.live[from]])
    case Move(from, to) => w.(live := (w.live - {from})[to := w.live[from]])
    case Drop(at) => World(Count(w.pipes, w.live[at], -1), w.live - {at})
    case Read(via, n) => var p := w.live[via].pipe; w.(pipes := w.pipes[p := AfterRead(w.pipes[p], n)])
    case Write(via, data) => var p := w.live[via].pipe; w.(pipes := w.pipes[p := AfterWrite(w.pipes[p], data)])
  }

  // ---- what every step keeps -------------------------------------------------------

  /** The handles of one end of a pipe, wherever they live. */
  ghost function Holders(live: Handles, e: End): set<Loc> {
    set l | l in live && live[l] == e
  }

  ghost predicate PipeOk(w: World, p: nat) {
    p < |w.pipes| ==>
      && w.pipes[p].writers == |Holders(w.live, PipeEnd(p, true))|
      && w.pipes[p].readers == |Holders(w.live, PipeEnd(p, false))|
      && w.pipes[p].delivered + w.pipes[p].buf == w.pipes[p].accepted
      && |w.pipes[p].buf| <= w.pipes[p].cap
  }

  ghost predicate Inv(w: World) {
    && (forall p {:trigger PipeOk(w, p)} :: PipeOk(w, p))
    && (forall l :: l in w.live && w.live[l].PipeEnd? ==> w.live[l].pipe < |w.pipes|)
  }

  lemma HoldersOfAdded(live: Handles, l: Loc, e: End, x: End)
    requires l !in live
    ensures |Holders(live[l := e], x)| == |Holders(live, x)| + (if x == e then 1 else 0)
  {
    assert Holders(live[l := e], x) == if x == e then Holders(live, x) + {l} else Holders(live, x);
  }

  lemma HoldersOfRemoved(live: Handles, l: Loc, x: End)
    requires l in live
    ensures |Holders(live - {l}, x)| == |Holders(live, x)| - (if x == live[l] then 1 else 0)
  {
    assert Holders(live - {l}, x) == if x == live[l] then Holders(live, x) - {l} else Holders(live, x);
  }

  lemma CreateKeeps(w: World, a: Action)
    requires Inv(w) && a.Create? && Enabled(w, a)
    ensures Inv(Apply(w, a))
  {
    var n, w' := |w.pipes|, Apply(w, a);
    var live1 := w.live[a.reader := PipeEnd(n, false)];
    forall p ensures PipeOk(w', p) {
      assert PipeOk(w, p);
      HoldersOfAdded(w.live, a.reader, PipeEnd(n, false), PipeEnd(p, true));
      HoldersOfAdded(w.live, a.reader, PipeEnd(n, false), PipeEnd(p, false));
      HoldersOfAdded(live1, a.writer, PipeEnd(n, true), PipeEnd(p, true));
      HoldersOfAdded(live1, a.writer, PipeEnd(n, true), PipeEnd(p, false));
      if p == n {
        assert Holders(w.live, PipeEnd(n, true)) == {} && Holders(w.live, PipeEnd(n, false)) == {};
      }
    }
  }

  lemma AddedKeeps(w: World, e: End, to: Loc)
    requires Inv(w) && to !in w.live && (e.PipeEnd? ==> e.pipe < |w.pipes|)
    ensures Inv(World(Count(w.pipes, e, 1), w.live[to := e]))
  {
    var w' := World(Count(w.pipes, e, 1), w.live[to := e]);
    forall p ensures PipeOk(w', p) {
      assert PipeOk(w, p);
      HoldersOfAdded(w.live, to, e, PipeEnd(p, true));
      HoldersOfAdded(w.live, to, e, PipeEnd(p, false));
    }
  }

  lemma RemovedKeeps(w: World, at: Loc)
    requires Inv(w) && at in w.live
    ensures Inv(World(Count(w.pipes, w.live[at], -1), w.live - {at}))
  {
    var w' := World(Count(w.pipes, w.live[at], -1), w.live - {at});
    forall p ensures PipeOk(w', p) {
      assert PipeOk(w, p);
      HoldersOfRemoved(w.live, at, PipeEnd(p, true));
      HoldersOfRemoved(w.live, at, PipeEnd(p, false));
    }
  }

  lemma CountsCancel(pipes: seq<Pipe>, e: End)
    ensures Count(Count(pipes, e, -1), e, 1) == pipes
  {
  }

  lemma ApplyKeepsInv(w: World, a: Action)
    requires Inv(w) && Enabled(w, a)
    ensures Inv(Apply(w, a))
  {
    match a
    case Create(_, _, _) => CreateKeeps(w, a);
    case OpenOther(at) => AddedKeeps(w, OtherFile, at);
    case Clone(from, to) => AddedKeeps(w, w.live[from], to);
    case Move(from, to) =>
      RemovedKeeps(w, from);
      AddedKeeps(World(Count(w.pipes, w.live[from], -1), w.live - {from}), w.live[from], to);
      CountsCancel(w.pipes, w.live[from]);
    case Drop(at) => RemovedKeeps(w, at);
    case Read(via, n) => forall p ensures PipeOk(Apply(w, a), p) { assert PipeOk(w, p); }
    case Write(via, data) => forall p ensures PipeOk(Apply(w, a), p) { assert PipeOk(w, p); }
  }

  // ---- runs ------------------------------------------------------------------------

  ghost predicate StepAt(worlds: seq<World>, actions: seq<Action>, i: nat)
    requires |worlds| == |actions| + 1 && i < |actions|
  {
    Enabled(worlds[i], actions[i]) && worlds[i + 1] == Apply(worlds[i], actions[i])
  }

  ghost predicate IsRun(worlds: seq<World>, actions: seq<Action>) {
    && |worlds| == |actions| + 1 && Inv(worlds[0])
    && forall i {:trigger StepAt(worlds, actions, i)} :: 0 <= i < |actions| ==> StepAt(worlds, actions, i)
  }

  /** In every state of every interleaving the counts are the numbers of live handles, the
      bytes delivered followed by those buffered are the bytes accepted, in order, and the
      buffer holds no more than its capacity. */
  lemma {:induction false} RunKeepsInv(worlds: seq<World>, actions: seq<Action>, k: nat)
    requires IsRun(worlds, actions) && k < |worlds|
    ensures Inv(worlds[k])
  {
    if k > 0 {
      RunKeepsInv(worlds, actions, k - 1);
      assert StepAt(worlds, actions, k - 1);
      ApplyKeepsInv(worlds[k - 1], actions[k - 1]);
    }
  }

  /** No write handle is left, and every accepted byte was delivered. */
  ghost predicate IsDrained(w: World, p: nat) {
    p < |w.pipes| && Holders(w.live, PipeEnd(p, true)) == {} && w.pipes[p].delivered == w.pipes[p].accepted
  }

  /** A read reports the end if and only if the pipe is drained. */
  lemma EndIffDrained(w: World, p: nat, n: nat)
    requires Inv(w) && p < |w.pipes|
    ensures ReadResult(w.pipes[p], n) == TimedOut <==> IsDrained(w, p)
  {
    assert PipeOk(w, p);
    assert |w.pipes[p].delivered| + |w.pipes[p].buf| == |w.pipes[p].accepted|;
  }

  lemma DrainedStep(w: World, a: Action, p: nat)
    requires Inv(w) && Enabled(w, a) && IsDrained(w, p)
    ensures IsDrained(Apply(w, a), p) && Apply(w, a).pipes[p].accepted == w.pipes[p].accepted
  {
    var e := PipeEnd(p, true);
    assert PipeOk(w, p);
    assert |w.pipes[p].delivered| + |w.pipes[p].buf| == |w.pipes[p].accepted|;
    assert forall l :: l in w.live ==> l in Holders(w.live, e) || w.live[l] != e;
    assert forall l :: l in Apply(w, a).live ==> Apply(w, a).live[l] != e;
  }

  /** The end is permanent: once drained, a pipe takes no byte and every later read of it,
      through any handle and by anyone, reports the end. */
  lemma {:induction false} EndIsPermanent(worlds: seq<World>, actions: seq<Action>, i: nat, k: nat, p: nat, n: nat)
    requires IsRun(worlds, actions) && i <= k < |worlds| && IsDrained(worlds[i], p)
    ensures IsDrained(worlds[k], p) && worlds[k].pipes[p].accepted == worlds[i].pipes[p].accepted
    ensures ReadResult(worlds[k].pipes[p], n) == TimedOut
    decreases k - i
  {
    RunKeepsInv(worlds, actions, k);
    if i < k {
      EndIsPermanent(worlds, actions, i, k - 1, p, n);
      RunKeepsInv(worlds, actions, k - 1);
      assert StepAt(worlds, actions, k - 1);
      DrainedStep(worlds[k - 1], actions[k - 1], p);
    }
    EndIffDrained(worlds[k], p, n);
  }

  /** The bytes a step hands to a reader of the pipe. */
  ghost function Handed(w: World, a: Action, p: nat): seq<Byte>
    requires Enabled(w, a)
  {
    if a.Read? && w.live[a.via].pipe == p && ReadResult(w.pipes[p], a.n).Got?
    then ReadResult(w.pipes[p], a.n).data
    else []
  }

  /** The bytes a step takes from a writer of the pipe. */
  ghost function Taken(w: World, a: Action, p: nat): seq<Byte>
    requires Enabled(w, a)
  {
    if a.Write? && w.live[a.via].pipe == p && WriteResult(w.pipes[p], a.data).Took?
    then a.data[..WriteResult(w.pipes[p], a.data).count]
    else []
  }

  /** Everything the readers of the pipe get in the first `k` steps, in order. */
  ghost function Received(worlds: seq<World>, actions: seq<Action>, k: nat, p: nat): seq<Byte>
    requires IsRun(worlds, actions) && k <= |actions|
  {
    if k == 0 then []
    else
      assert StepAt(worlds, actions, k - 1);
      Received(worlds, actions, k - 1, p) + Handed(worlds[k - 1], actions[k - 1], p)
  }

  ghost function Sent(worlds: seq<World>, actions: seq<Action>, k: nat, p: nat): seq<Byte>
    requires IsRun(worlds, actions) && k <= |actions|
  {
    if k == 0 then []
    else
      assert StepAt(worlds, actions, k - 1);
      Sent(worlds, actions, k - 1, p) + Taken(worlds[k - 1], actions[k - 1], p)
  }

  ghost predicate HistoryIs(w: World, p: nat, received: seq<Byte>, sent: seq<Byte>) {
    if p < |w.pipes| then w.pipes[p].delivered == received && w.pipes[p].accepted == sent
    else received == [] && sent == []
  }

  lemma HistoryStep(w: World, a: Action, p: nat, received: seq<Byte>, sent: seq<Byte>)
    requires Inv(w) && Enabled(w, a) && HistoryIs(w, p, received, sent)
    ensures HistoryIs(Apply(w, a), p, received + Handed(w, a, p), sent + Taken(w, a, p))
  {
  }

  lemma {:induction false} HistoryOfRun(worlds: seq<World>, actions: seq<Action>, k: nat, p: nat)
    requires IsRun(worlds, actions) && worlds[0].pipes == [] && k <= |actions|
    ensures HistoryIs(worlds[k], p, Received(worlds, actions, k, p), Sent(worlds, actions, k, p))
  {
    if k > 0 {
      HistoryOfRun(worlds, actions, k - 1, p);
      RunKeepsInv(worlds, actions, k - 1);
      assert StepAt(worlds, actions, k - 1);
      HistoryStep(worlds[k - 1], actions[k - 1], p,
                  Received(worlds, actions, k - 1, p), Sent(worlds, actions, k - 1, p));
    }
  }

  /** What readers got so far, followed by what is buffered, is what writers put in so far;
      a read that reports the end comes after every byte, and with no writer left. */
  lemma ReadersGetWhatWasWritten(worlds: seq<World>, actions: seq<Action>, k: nat, p: nat, n: nat)
    requires IsRun(worlds, actions) && worlds[0].pipes == [] && k <= |actions| && p < |worlds[k].pipes|
    ensures Received(worlds, actions, k, p) + worlds[k].pipes[p].buf == Sent(worlds, actions, k, p)
    ensures ReadResult(worlds[k].pipes[p], n) == TimedOut <==>
            Holders(worlds[k].live, PipeEnd(p, true)) == {}
            && Received(worlds, actions, k, p) == Sent(worlds, actions, k, p)
  {
    HistoryOfRun(worlds, actions, k, p);
    RunKeepsInv(worlds, actions, k);
    assert PipeOk(worlds[k], p);
    EndIffDrained(worlds[k], p, n);
  }

  // ---- the pipe object -------------------------------------------------------------

  class PipeDevice {
    const cap: nat
    var buf: seq<Byte>
    var readers: int
    var writers: int
    ghost var accepted: seq<Byte>
    ghost var delivered: seq<Byte>

    ghost function View(): Pipe
      reads this
    {
      Pipe(cap, buf, readers, writers, accepted, delivered)
    }

    constructor (cap: int)
      ensures View() == NewPipe(cap)
    {
      this.cap := if cap >= 0 then cap else USIZE_MAX;
      buf, readers, writers, accepted, delivered := [], 0, 0, [], [];
    }

    /** The open and clone hooks: a handle that may write counts as a writer only. */
    method IncHandles(mayRead: bool, mayWrite: bool)
      modifies this
      ensures mayRead || mayWrite ==> [View()] == Count([old(View())], PipeEnd(0, mayWrite), 1)
      ensures !mayRead && !mayWrite ==> View() == old(View())
    {
      if mayWrite { writers := writers + 1; }
      else if mayRead { readers := readers + 1; }
    }

    method DecHandles(mayRead: bool, mayWrite: bool)
      modifies this
      ensures mayRead || mayWrite ==> [View()] == Count([old(View())], PipeEnd(0, mayWrite), -1)
      ensures !mayRead && !mayWrite ==> View() == old(View())
    {
      if mayWrite { writers := writers - 1; }
      else if mayRead { readers := readers - 1; }
    }

    method Write(data: seq<Byte>) returns (r: Writing)
      modifies this
      ensures r == WriteResult(old(View()), data) && View() == AfterWrite(old(View()), data)
    {
      var canPush := if |buf| <= cap then cap - |buf| else 0;
      if canPush == 0 { return StorageFull; }
      canPush := Min(canPush, |data|);
      buf := buf + data[..canPush];
      accepted := accepted + data[..canPush];
      return Took(canPush);
    }

    /** Fills the caller's buffer from the front of the queue, byte by byte. */
    method Read(out: array<Byte>) returns (r: Reading)
      modifies this, out
      ensures r == ReadResult(old(View()), out.Length) && View() == AfterRead(old(View()), out.Length)
      ensures r.Got? ==> |r.data| <= out.Length && out[..|r.data|] == r.data && out[|r.data|..] == old(out[|r.data|..])
      ensures r.TimedOut? ==> out[..] == old(out[..])
    {
      if buf == [] && writers == 0 { return TimedOut; }
      var len := Min(out.Length, |buf|);
      var i := 0;
      while i < len
        invariant i <= len && out[..i] == buf[..i] && out[i..] == old(out[i..])
        modifies out
      {
        out[i] := buf[i];
        i := i + 1;
      }
      r := Got(buf[..len]);
      delivered := delivered + buf[..len];
      buf := buf[len..];
    }

    /** The default `write_all` on a pipe: everything goes in, or the pipe is filled up and the
        rest is refused. */
    method WriteAll(data: seq<Byte>) returns (ok: bool)
      modifies this
      ensures var n := Min(if |old(buf)| <= cap then cap - |old(buf)| else 0, |data|);
              && ok == (n == |data|)
              && View() == old(View()).(buf := old(buf) + data[..n], accepted := old(accepted) + data[..n])
    {
      var rest := data;
      ghost var n: nat := 0;
      while rest != []
        invariant n <= |data| && rest == data[n..] && (n > 0 ==> |buf| <= cap)
        invariant View() == old(View()).(buf := old(buf) + data[..n], accepted := old(accepted) + data[..n])
        decreases |rest|
      {
        var w := Write(rest);
        if w.StorageFull? { return false; }
        assert data[..n] + rest[..w.count] == data[..n + w.count];
        rest := rest[w.count..];
        n := n + w.count;
      }
      return true;
    }

    /** The default `read_to_end` on a pipe, left to itself: it takes all that is buffered. It
        succeeds if and only if a write handle lives; without one it ends in the error of the
        last read, and what it took is in the caller's buffer all the same. */
    method ReadToEnd(into: seq<Byte>) returns (r: Option<nat>, into': seq<Byte>)
      modifies this
      ensures r == if old(writers) == 0 then None else Some(|old(buf)|)
      ensures |old(buf)| <= |into'| && into'[..|old(buf)|] == old(buf)
      ensures View() == old(View()).(buf := [], delivered := old(delivered) + old(buf))
    {
      into' := into;
      var written := 0;
      while true
        invariant written <= |into'| && written + |buf| == |old(buf)| && buf == old(buf)[written..]
        invariant into'[..written] == old(buf)[..written]
        invariant View() == old(View()).(buf := buf, delivered := old(delivered) + old(buf)[..written])
        decreases |buf|, |into'| == written
      {
        var slice := new Byte[|into'| - written];
        var count := Read(slice);
        if count.TimedOut? { return None, into'; }
        assert old(buf)[..written] + count.data == old(buf)[..written + |count.data|];
        into' := into'[..written] + count.data + into'[written + |count.data|..];
        if |count.data| == |into'| - written {
          into' := into' + seq((if |into'| == 0 then 1 else |into'|) * 2 - |into'|, _ => 0);
        } else if count.data == [] {
          return Some(written), into';
        }
        written := written + |count.data|;
      }
    }
  }

  // ---- descriptor tables -----------------------------------------------------------

  type Table = map<nat, End>

  predicate IsOf(l: Loc, pid: nat) {
    l.InTable? && l.pid == pid
  }

  /** No handle outside the table of `pid` differs. */
  ghost predicate SameElsewhere(live: Handles, live': Handles, pid: nat) {
    forall l :: !IsOf(l, pid) ==> (l in live <==> l in live') && (l in live ==> live'[l] == live[l])
  }

  /** The open descriptors of a process. */
  ghost function TableOf(live: Handles, pid: nat): Table {
    map l | l in live && IsOf(l, pid) :: l.fd := live[l]
  }

  /** Moving handles about changes no pipe but for its counts. */
  ghost predicate SameBytes(w: World, w': World) {
    && |w'.pipes| == |w.pipes|
    && forall p :: 0 <= p < |w.pipes| ==>
         w'.pipes[p] == w.pipes[p].(readers := w'.pipes[p].readers, writers := w'.pipes[p].writers)
  }

  /** A file action of a spawn. Opening a path gives some other file, or fails. */
  datatype FdAction =
    | Open(fd: nat, found: bool)
    | Close(fd: nat)
    | Dup(from: nat, to: nat)
    | Clear
    | Inherit(parent: nat, child: nat)

  /** One action on the child's table; None is an error. */
  function ActOn(parent: Table, t: Table, a: FdAction): Option<Table> {
    match a
    case Open(fd, found) => if found then Some(t[fd := OtherFile]) else None
    case Close(fd) => Some(t - {fd})
    case Dup(from, to) => if from in t then Some(t[to := t[from]]) else None
    case Clear => Some(map[])
    case Inherit(p, c) => if p in parent then Some(t[c := parent[p]]) else None
  }

  function ActAll(parent: Table, t: Table, actions: seq<FdAction>): Option<Table>
    decreases |actions|
  {
    if actions == [] then Some(t)
    else
      match ActOn(parent, t, actions[0])
      case None => None
      case Some(t') => ActAll(parent, t', actions[1..])
  }

  ghost predicate IsNextFd(live: Handles, pid: nat, fd: nat) {
    && (forall f: nat :: InTable(pid, f) in live ==> f < fd)
    && (fd > 0 ==> InTable(pid, fd - 1) in live)
  }

  /** The descriptor calls, written as the single steps that other threads may fall between. */
  class Descriptors {
    var w: World
    var hands: nat                  // variables of running calls are numbered

    ghost predicate Valid()
      reads this
    {
      Inv(w) && forall l :: l in w.live && l.InHand? ==> l.id < hands
    }

    constructor ()
      ensures Valid() && w == World([], map[])
    {
      w := World([], map[]);
      hands := 0;
    }

    method Do(a: Action)
      requires Inv(w) && Enabled(w, a)
      modifies this`w
      ensures w == Apply(old(w), a) && Inv(w)
    {
      ApplyKeepsInv(w, a);
      w := Apply(w, a);
    }

    /** The first number above all open descriptors. */
    method NextFd(pid: nat) returns (fd: nat)
      ensures IsNextFd(w.live, pid, fd)
    {
      var todo := w.live.Keys;
      fd := 0;
      while todo != {}
        invariant todo <= w.live.Keys
        invariant forall f: nat :: InTable(pid, f) in w.live && InTable(pid, f) !in todo ==> f < fd
        invariant fd > 0 ==> InTable(pid, fd - 1) in w.live
        decreases todo
      {
        var l :| l in todo;
        todo := todo - {l};
        if l.InTable? && l.pid == pid && l.fd >= fd { fd := l.fd + 1; }
      }
    }

    /** `add_fd`: the handle goes from the caller's variable into the table, and a handle it
        replaces is dropped. */
    method Insert(pid: nat, fd: nat, id: nat)
      requires Valid() && InHand(id) in w.live
      modifies this
      ensures Valid() && SameBytes(old(w), w)
      ensures w.live == (old(w.live) - {InHand(id)})[InTable(pid, fd) := old(w.live)[InHand(id)]]
    {
      var slot := InTable(pid, fd);
      if slot in w.live {
        var out := InHand(hands);
        hands := hands + 1;
        Do(Move(slot, out));
        Do(Move(InHand(id), slot));
        Do(Drop(out));
      } else {
        Do(Move(InHand(id), slot));
      }
    }

    /** A handle cloned out of one place and put into a table. */
    method PutClone(from: Loc, pid: nat, fd: nat)
      requires Valid() && from in w.live
      modifies this
      ensures Valid() && SameBytes(old(w), w)
      ensures w.live == old(w.live)[InTable(pid, fd) := old(w.live)[from]]
      ensures TableOf(w.live, pid) == TableOf(old(w.live), pid)[fd := old(w.live)[from]]
      ensures SameElsewhere(old(w.live), w.live, pid)
    {
      TableUpdated(w.live, pid, fd, w.live[from]);
      var id := hands;
      hands := hands + 1;
      Do(Clone(from, InHand(id)));
      Insert(pid, fd, id);
    }

    /** A file of the file system opened into a table. */
    method OpenInto(pid: nat, fd: nat)
      requires Valid()
      modifies this
      ensures Valid() && SameBytes(old(w), w)
      ensures TableOf(w.live, pid) == TableOf(old(w.live), pid)[fd := OtherFile]
      ensures SameElsewhere(old(w.live), w.live, pid)
    {
      TableUpdated(w.live, pid, fd, OtherFile);
      var id := hands;
      hands := hands + 1;
      Do(OpenOther(InHand(id)));
      Insert(pid, fd, id);
      assert w.live == old(w.live)[InTable(pid, fd) := OtherFile];
    }

    /** `remove_fd`, and the drop of what it returns. */
    method Remove(pid: nat, fd: nat) returns (ok: bool)
      requires Valid()
      modifies this
      ensures Valid() && SameBytes(old(w), w)
      ensures ok == (InTable(pid, fd) in old(w.live)) && w.live == old(w.live) - {InTable(pid, fd)}
      ensures TableOf(w.live, pid) == TableOf(old(w.live), pid) - {fd} && SameElsewhere(old(w.live), w.live, pid)
    {
      TableRemoved(w.live, pid, fd);
      var slot := InTable(pid, fd);
      if slot !in w.live { return false; }
      var out := InHand(hands);
      hands := hands + 1;
      Do(Move(slot, out));
      Do(Drop(out));
      return true;
    }

    /** The `pipe` call: both ends are counted before either is in the table. */
    method OpenPipe(pid: nat, cap: int) returns (readFd: nat, writeFd: nat)
      requires Valid()
      modifies this
      ensures Valid() && IsNextFd(old(w.live), pid, readFd) && writeFd == readFd + 1
      ensures |w.pipes| == |old(w.pipes)| + 1 && w.pipes[..|old(w.pipes)|] == old(w.pipes)
      ensures w.pipes[|old(w.pipes)|] == NewPipe(cap).(readers := 1, writers := 1)
      ensures w.live == old(w.live)[InTable(pid, readFd) := PipeEnd(|old(w.pipes)|, false)]
                                   [InTable(pid, writeFd) := PipeEnd(|old(w.pipes)|, true)]
    {
      var reader, writer := InHand(hands), InHand(hands + 1);
      hands := hands + 2;
      Do(Create(cap, reader, writer));
      readFd := NextFd(pid);
      Do(Move(reader, InTable(pid, readFd)));
      writeFd := NextFd(pid);
      assert InTable(pid, readFd) in w.live;
      assert InTable(pid, writeFd - 1) in w.live;
      Do(Move(writer, InTable(pid, writeFd)));
    }

    /** The `dup` call. A negative `to` asks for the next free descriptor. */
    method Duplicate(pid: nat, from: nat, to: int) returns (r: Option<nat>)
      requires Valid()
      modifies this
      ensures Valid() && SameBytes(old(w), w)
      ensures r.Some? <==> InTable(pid, from) in old(w.live)
      ensures r.Some? ==> if to >= 0 then r.value == to else IsNextFd(old(w.live), pid, r.value)
      ensures w.live == if r.Some? then old(w.live)[InTable(pid, r.value) := old(w.live)[InTable(pid, from)]]
                        else old(w.live)
    {
      var next;
      if to >= 0 { next := to; } else { next := NextFd(pid); }
      if InTable(pid, from) !in w.live { return None; }
      PutClone(InTable(pid, from), pid, next);
      return Some(next);
    }

    /** Drops every handle of a table, as at the end of a process. */
    method ClearTable(pid: nat)
      requires Valid()
      modifies this
      ensures Valid() && SameBytes(old(w), w)
      ensures SameElsewhere(old(w.live), w.live, pid) && forall l :: IsOf(l, pid) ==> l !in w.live
    {
      var todo := set l | l in w.live && IsOf(l, pid);
      while todo != {}
        invariant Valid() && SameBytes(old(w), w)
        invariant forall l :: l in todo ==> l in w.live && IsOf(l, pid)
        invariant forall l :: l in w.live && IsOf(l, pid) ==> l in todo
        invariant SameElsewhere(old(w.live), w.live, pid)
        decreases todo
      {
        var l :| l in todo;
        todo := todo - {l};
        Do(Drop(l));
      }
    }

    /** The table iterator hands out a clone, the child's table gets a clone of that one, and
        the first is dropped. */
    method InheritOne(from: Loc, child: nat, fd: nat)
      requires Valid() && from in w.live
      modifies this
      ensures Valid() && SameBytes(old(w), w)
      ensures w.live == old(w.live)[InTable(child, fd) := old(w.live)[from]]
    {
      var f := InHand(hands);
      hands := hands + 1;
      ghost var e := w.live[from];
      Do(Clone(from, f));
      PutClone(f, child, fd);
      TemporaryIsGone(old(w.live), f, InTable(child, fd), e);
      Do(Drop(f));
    }

    /** A child starts with clones of all of its parent's descriptors. */
    method InheritAll(parent: nat, child: nat)
      requires Valid() && parent != child && forall fd :: InTable(child, fd) !in w.live
      modifies this
      ensures Valid() && SameBytes(old(w), w)
      ensures TableOf(w.live, child) == TableOf(old(w.live), parent)
      ensures SameElsewhere(old(w.live), w.live, child)
    {
      var todo := set l | l in w.live && IsOf(l, parent);
      while todo != {}
        invariant Valid() && SameBytes(old(w), w)
        invariant forall l :: l in todo ==> l in old(w.live) && IsOf(l, parent)
        invariant SameElsewhere(old(w.live), w.live, child)
        invariant forall fd :: InTable(child, fd) in w.live <==>
                    InTable(parent, fd) in old(w.live) && InTable(parent, fd) !in todo
        invariant forall fd :: InTable(child, fd) in w.live ==>
                    w.live[InTable(child, fd)] == old(w.live)[InTable(parent, fd)]
        decreases todo
      {
        var l :| l in todo;
        todo := todo - {l};
        InheritOne(l, child, l.fd);
      }
    }

    /** One file action of a spawn on the child's table; an error changes nothing. */
    method Act(parent: nat, child: nat, a: FdAction) returns (ok: bool)
      requires Valid() && parent != child
      modifies this
      ensures Valid() && SameBytes(old(w), w) && SameElsewhere(old(w.live), w.live, child)
      ensures ActOn(TableOf(old(w.live), parent), TableOf(old(w.live), child), a)
              == if ok then Some(TableOf(w.live, child)) else None
    {
      ok := true;
      match a
      case Open(fd, found) =>
        if !found { return false; }
        OpenInto(child, fd);
      case Close(fd) =>
        var _ := Remove(child, fd);
      case Dup(from, to) =>
        if InTable(child, from) !in w.live { return false; }
        PutClone(InTable(child, from), child, to);
      case Clear =>
        ClearTable(child);
      case Inherit(p, c) =>
        if InTable(parent, p) !in w.live { return false; }
        PutClone(InTable(parent, p), child, c);
    }

    /** The file side of a spawn: inherit everything, then apply the actions in order. On any
        error, there or in building the task, every handle of the child is dropped again. */
    method Spawn(parent: nat, child: nat, actions: seq<FdAction>) returns (ok: bool)
      requires Valid() && parent != child && forall fd :: InTable(child, fd) !in w.live
      modifies this
      ensures Valid() && SameBytes(old(w), w)
      ensures ok ==> SameElsewhere(old(w.live), w.live, child)
                     && ActAll(TableOf(old(w.live), parent), TableOf(old(w.live), parent), actions)
                        == Some(TableOf(w.live, child))
      ensures !ok ==> w.live == old(w.live)
    {
      InheritAll(parent, child);
      ghost var table := TableOf(old(w.live), parent);
      var i := 0;
      ok := true;
      while i < |actions| && ok
        invariant i <= |actions| && Valid() && SameBytes(old(w), w) && SameElsewhere(old(w.live), w.live, child)
        invariant ok ==> ActAll(table, table, actions) == ActAll(table, TableOf(w.live, child), actions[i..])
        invariant !ok ==> ActAll(table, table, actions) == None
        decreases |actions| - i
      {
        SameTable(old(w.live), w.live, child, parent);
        ok := Act(parent, child, actions[i]);
        assert actions[i..][1..] == actions[i + 1..];
        i := i + 1;
      }
      var built: bool := *;
      if !ok || !built {
        ClearTable(child);
        return false;
      }
    }
  }

  lemma TemporaryIsGone(live: Handles, f: Loc, slot: Loc, e: End)
    requires f !in live && f != slot
    ensures live[f := e][slot := e] - {f} == live[slot := e]
  {
  }

  lemma TableUpdated(live: Handles, pid: nat, fd: nat, e: End)
    ensures TableOf(live[InTable(pid, fd) := e], pid) == TableOf(live, pid)[fd := e]
  {
  }

  lemma TableRemoved(live: Handles, pid: nat, fd: nat)
    ensures TableOf(live - {InTable(pid, fd)}, pid) == TableOf(live, pid) - {fd}
  {
  }

  lemma SameTable(live: Handles, live': Handles, changed: nat, pid: nat)
    requires SameElsewhere(live, live', changed) && pid != changed
    ensures TableOf(live', pid) == TableOf(live, pid)
  {
    assert forall fd: nat :: !IsOf(InTable(pid, fd), changed);
  }
}
