/** The round-robin run queue on its own: `LazyRoundRobin::switch` and what rotating
    does to the order of the queue. */
module Rotation {

  import opened KernelTypes

  predicate Distinct(q: seq<Tid>) {
    forall i, j :: 0 <= i < j < |q| ==> q[i] != q[j]
  }

  /** What `switch` returns and leaves behind: ids that cannot run are dropped from the
      front, the first one that can is moved to the back. */
  function Switch(q: seq<Tid>, runnable: set<Tid>): (r: (Option<Tid>, seq<Tid>)) {
    if q == [] then (None, [])
    else if q[0] in runnable then (Some(q[0]), q[1..] + [q[0]])
    else Switch(q[1..], runnable)
  }

  /** The position at which `switch` stops. */
  function FirstRunnable(q: seq<Tid>, runnable: set<Tid>): (k: nat)
    ensures k <= |q|
    ensures forall i :: 0 <= i < k ==> q[i] !in runnable
    ensures k < |q| ==> q[k] in runnable
  {
    if q == [] || q[0] in runnable then 0 else 1 + FirstRunnable(q[1..], runnable)
  }

  lemma {:induction false} SwitchAt(q: seq<Tid>, runnable: set<Tid>)
    ensures var k := FirstRunnable(q, runnable);
            Switch(q, runnable) == if k == |q| then (None, []) else (Some(q[k]), q[k + 1..] + [q[k]])
  {
    if q != [] && q[0] !in runnable {
      SwitchAt(q[1..], runnable);
      var k := FirstRunnable(q[1..], runnable);
      if k < |q[1..]| { assert q[1..][k + 1..] == q[k + 2..]; }
    }
  }

  /** Conservation: a switch removes nothing that could run, and adds nothing. */
  lemma SwitchConserves(q: seq<Tid>, runnable: set<Tid>)
    ensures var (d, q') := Switch(q, runnable);
            && (forall a :: a in q && a in runnable ==> a in q')
            && (forall a :: a in q' ==> a in q)
            && (d.Some? ==> d.value in q && d.value in runnable)
            && (d.None? ==> forall a :: a in q ==> a !in runnable)
  {
    SwitchAt(q, runnable);
    var k := FirstRunnable(q, runnable);
    if k < |q| {
      assert q == q[..k] + [q[k]] + q[k + 1..];
      forall a | a in q && a in runnable ensures a in q[k + 1..] + [q[k]] {
        assert a !in q[..k];
      }
    }
  }

  lemma SwitchKeepsDistinct(q: seq<Tid>, runnable: set<Tid>)
    requires Distinct(q)
    ensures Distinct(Switch(q, runnable).1)
  {
    SwitchAt(q, runnable);
  }

  /** A runnable thread at position `p` is dispatched now, or stands strictly further
      to the front afterwards. */
  lemma SwitchAdvances(q: seq<Tid>, runnable: set<Tid>, p: nat) returns (p': nat)
    requires p < |q| && q[p] in runnable
    ensures var (d, q') := Switch(q, runnable);
            d.Some? && (d == Some(q[p]) || (p' < p && p' < |q'| && q'[p'] == q[p]))
  {
    SwitchAt(q, runnable);
    var k := FirstRunnable(q, runnable);
    p' := if k < p then p - k - 1 else 0;
  }

  ghost predicate Ahead(q: seq<Tid>, a: Tid, b: Tid) {
    exists i, j :: 0 <= i < j < |q| && q[i] == a && q[j] == b
  }

  lemma AheadBy(q: seq<Tid>, i: nat, j: nat)
    requires i < j < |q|
    ensures Ahead(q, q[i], q[j])
  {
  }

  lemma RotatedAhead(q: seq<Tid>, k: nat, i: nat, j: nat)
    requires k <= i < j < |q|
    ensures var q' := q[k + 1..] + [q[k]];
            if k == i then Ahead(q', q[j], q[i]) else Ahead(q', q[i], q[j])
  {
    var q' := q[k + 1..] + [q[k]];
    assert q'[j - k - 1] == q[j] && q'[|q'| - 1] == q[k];
    if k == i { AheadBy(q', j - k - 1, |q'| - 1); }
    else {
      assert q'[i - k - 1] == q[i];
      AheadBy(q', i - k - 1, j - k - 1);
    }
  }

  lemma AheadSurvivesPush(q: seq<Tid>, a: Tid, b: Tid, x: Tid)
    requires Ahead(q, a, b)
    ensures Ahead(q + [x], a, b)
  {
    var i, j :| 0 <= i < j < |q| && q[i] == a && q[j] == b;
    assert (q + [x])[i] == a && (q + [x])[j] == b;
  }

  /** While a runnable thread stands ahead of another, only it can be overtaken: the
      other is not dispatched, and a dispatch of the first swaps the two. */
  lemma AheadGoesFirst(q: seq<Tid>, runnable: set<Tid>, a: Tid, b: Tid)
    requires Distinct(q) && Ahead(q, a, b) && a in runnable
    ensures var (d, q') := Switch(q, runnable);
            && d.Some? && d != Some(b)
            && (d == Some(a) ==> Ahead(q', b, a))
            && (d != Some(a) ==> Ahead(q', a, b))
  {
    SwitchAt(q, runnable);
    var k := FirstRunnable(q, runnable);
    var i, j :| 0 <= i < j < |q| && q[i] == a && q[j] == b;
    assert k <= i && q[k] != b && (q[k] == a ==> k == i);
    RotatedAhead(q, k, i, j);
  }

  /** From behind, a thread is dispatched only if the one ahead of it dropped out. */
  lemma BehindWaits(q: seq<Tid>, runnable: set<Tid>, a: Tid, b: Tid)
    requires Distinct(q) && Ahead(q, b, a)
    ensures var (d, q') := Switch(q, runnable);
            && (d == Some(a) ==> b !in q')
            && (d != Some(a) && d != Some(b) && b in q' && a in runnable ==> Ahead(q', b, a))
  {
    SwitchAt(q, runnable);
    var k := FirstRunnable(q, runnable);
    var i, j :| 0 <= i < j < |q| && q[i] == b && q[j] == a;
    if k < |q| {
      var q' := Switch(q, runnable).1;
      if k < i { assert q'[i - k - 1] == b && q'[j - k - 1] == a; }
    }
  }

  /** An id that cannot run stays in the queue exactly if one that can run stands ahead of it. */
  lemma UnrunnableStaysIff(q: seq<Tid>, runnable: set<Tid>, id: Tid)
    requires Distinct(q) && id in q && id !in runnable
    ensures id in Switch(q, runnable).1 <==> exists a :: a in runnable && Ahead(q, a, id)
  {
    SwitchAt(q, runnable);
    var k, q' := FirstRunnable(q, runnable), Switch(q, runnable).1;
    var p :| 0 <= p < |q| && q[p] == id;
    if k < p {
      assert q'[p - k - 1] == id && q[k] in runnable && Ahead(q, q[k], id);
    }
  }

  /** `LazyRoundRobin`, its queue lock being held for the duration of each call. */
  class LazyRoundRobin {
    var queue: seq<Tid>

    constructor ()
      ensures queue == []
    {
      queue := [];
    }

    method AddTask(id: Tid)
      modifies this
      ensures queue == old(queue) + [id]
    {
      queue := queue + [id];
    }

    /** `runnable` are the ids found in the thread table in state Ready. */
    method SwitchTask(runnable: set<Tid>) returns (next: Option<Tid>)
      modifies this
      ensures (next, queue) == Switch(old(queue), runnable)
    {
      while queue != []
        invariant Switch(queue, runnable) == Switch(old(queue), runnable)
        decreases |queue|
      {
        var id := queue[0];
        queue := queue[1..];
        if id in runnable {
          queue := queue + [id];
          return Some(id);
        }
      }
      return None;
    }

    /** The commit half of `reschedule`. */
    method Refill(snapshot: seq<Tid>)
      modifies this
      ensures queue == snapshot
    {
      queue := [];
      queue := queue + snapshot;
    }
  }
}
