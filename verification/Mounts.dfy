/** The mount table of the virtual file system: lookup of the deepest mount, mounting
    and unmounting. */
module Mounts {

  import opened KernelTypes
  import opened Paths

  /** `key` is the path itself or ends right before one of its separators. */
  predicate IsComponentPrefix(key: string, path: string) {
    key <= path && (|key| == |path| || path[|key|] == SEP)
  }

  /** One step of the `Ancestors` iterator loses one component prefix, the path itself. */
  lemma PrefixOfParent(key: string, path: string)
    requires Parent(path).Some?
    ensures IsComponentPrefix(key, path) <==> key == path || IsComponentPrefix(key, Parent(path).value)
  {
    var p := Parent(path).value;
    assert path == p + [SEP] + path[|p| + 1..];
    if IsComponentPrefix(key, path) && key != path {
      assert forall i :: |p| < i < |path| ==> path[i] == path[|p| + 1..][i - |p| - 1];
      assert key == path[..|key|];
    }
    if IsComponentPrefix(key, p) && |key| < |p| { assert path[|key|] == p[|key|]; }
  }

  /** Without a separator there is no shorter one. */
  lemma PrefixOfSegment(key: string, path: string)
    requires Parent(path).None?
    ensures IsComponentPrefix(key, path) <==> key == path
  {
    assert forall i :: 0 <= i < |path| ==> path[i] in path;
  }

  lemma PrefixOfPrefix(key: string, mid: string, path: string)
    requires IsComponentPrefix(key, mid) && IsComponentPrefix(mid, path)
    ensures IsComponentPrefix(key, path)
  {
    if |key| < |mid| { assert path[|key|] == mid[|key|]; }
  }

  type Table<Fs> = map<string, Fs>

  /** `key` is mounted, matches the path, and no longer mounted key does. */
  ghost predicate IsDeepest<Fs>(table: Table<Fs>, path: string, key: string) {
    && key in table && IsComponentPrefix(key, path)
    && forall k :: k in table && IsComponentPrefix(k, path) ==> |k| <= |key|
  }

  lemma DeepestIsUnique<Fs>(table: Table<Fs>, path: string, k: string, l: string)
    requires IsDeepest(table, path, k) && IsDeepest(table, path, l)
    ensures k == l
  {
    assert k == path[..|k|] && l == path[..|l|];
  }

  class Ancestors {
    var next: Option<string>

    constructor (path: string)
      ensures next == Some(path)
    {
      next := Some(path);
    }

    method Next() returns (item: Option<string>)
      modifies this
      ensures item == old(next)
      ensures next == if item.None? then None else Parent(item.value)
    {
      item := next;
      next := if item.None? then None else Parent(item.value);
    }
  }

  class Vfs<Fs> {
    var mountTable: Table<Fs>

    constructor ()
      ensures mountTable == map[]
    {
      mountTable := map[];
    }

    /** Longest component prefix: the mount returned is the deepest one, key and postfix
        make up the path, and the answer is empty only if no mount matches. */
    method DeepestMatchingMount(path: string) returns (r: Option<(Fs, string)>)
      ensures r.None? ==> forall k :: k in mountTable ==> !IsComponentPrefix(k, path)
      ensures r.Some? ==>
                exists k :: IsDeepest(mountTable, path, k) && mountTable[k] == r.value.0 && path == k + r.value.1
      ensures r.Some? ==> r.value.1 == [] || r.value.1[0] == SEP
    {
      var ancestors := new Ancestors(path);
      while true
        invariant fresh(ancestors)
        invariant ancestors.next.None? ==> forall k :: k in mountTable ==> !IsComponentPrefix(k, path)
        invariant ancestors.next.Some? ==> IsComponentPrefix(ancestors.next.value, path)
        invariant ancestors.next.Some? ==> forall k :: k in mountTable && IsComponentPrefix(k, path) ==>
                    IsComponentPrefix(k, ancestors.next.value)
        decreases if ancestors.next.Some? then |ancestors.next.value| + 1 else 0
      {
        var next := ancestors.Next();
        if next.None? { return None; }
        var ancestor := next.value;
        if ancestor in mountTable {
          var postfix := StripPrefix(path, ancestor);
          assert postfix.Some?;
          assert IsDeepest(mountTable, path, ancestor);
          return Some((mountTable[ancestor], postfix.value));
        }
        forall k ensures IsComponentPrefix(k, ancestor) <==>
                         k == ancestor || (Parent(ancestor).Some? && IsComponentPrefix(k, Parent(ancestor).value))
        {
          if Parent(ancestor).Some? { PrefixOfParent(k, ancestor); } else { PrefixOfSegment(k, ancestor); }
        }
        if Parent(ancestor).Some? { PrefixOfPrefix(Parent(ancestor).value, ancestor, path); }
      }
    }

    /** `mount` installs the file system in any case; it reports the one it displaced. */
    method Mount(point: string, fs: Fs) returns (displaced: Option<Fs>)
      modifies this
      ensures mountTable == old(mountTable)[point := fs]
      ensures displaced == if point in old(mountTable) then Some(old(mountTable)[point]) else None
    {
      displaced := if point in mountTable then Some(mountTable[point]) else None;
      mountTable := mountTable[point := fs];
    }

    method Unmount(point: string) returns (removed: Option<Fs>)
      modifies this
      ensures mountTable == old(mountTable) - {point}
      ensures removed == if point in old(mountTable) then Some(old(mountTable)[point]) else None
    {
      if point !in mountTable { return None; }
      removed := Some(mountTable[point]);
      mountTable := mountTable - {point};
    }
  }

  /** A mount captures exactly the paths at or below its point that no deeper mount
      serves; every other path keeps its deepest mount. */
  lemma MountCapturesItsSubtree<Fs>(table: Table<Fs>, point: string, fs: Fs, path: string, key: string)
    ensures IsDeepest(table[point := fs], path, key) <==>
              if key == point
              then IsComponentPrefix(point, path) && forall d :: IsDeepest(table, path, d) ==> |d| <= |point|
              else IsDeepest(table, path, key) && (IsComponentPrefix(point, path) ==> |point| < |key|)
  {
    var after := table[point := fs];
    if IsComponentPrefix(point, path) {
      if key == point && !IsDeepest(after, path, key) {
        var k :| k in after && IsComponentPrefix(k, path) && |k| > |point|;
        var d := SomeDeepest(table, path, k);
      }
      assert IsComponentPrefix(key, path) && |point| == |key| ==> point == key;
    }
  }

  /** If some mount matches, one is deepest, and it is at least as long. */
  lemma {:induction false} SomeDeepest<Fs>(table: Table<Fs>, path: string, k: string) returns (d: string)
    requires k in table && IsComponentPrefix(k, path)
    ensures IsDeepest(table, path, d) && |k| <= |d|
    decreases |path| - |k|
  {
    if IsDeepest(table, path, k) { d := k; }
    else {
      var l :| l in table && IsComponentPrefix(l, path) && |l| > |k|;
      d := SomeDeepest(table, path, l);
    }
  }
}
