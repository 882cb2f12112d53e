/** The directory side of the in-memory file system: traversal, `open` with its creation
    flags, and `unlink`.  Nodes are kept by identity, as the reference-counted pointers of
    the original are, so that "the same node" can be told from "an equal node". */
module RamTree {

  import opened KernelTypes
  import opened Paths

  type Id = nat

  const ROOT: Id := 0

  datatype Perms = Perms(r: bool, w: bool, x: bool)

  const RWX := Perms(true, true, true)
  const RW := Perms(true, true, false)

  datatype Kind = Link(target: string) | PlainFile | Dir(entries: map<string, Id>)

  datatype Inode = Inode(kind: Kind, perms: Perms)

  datatype Fs = Fs(nodes: map<Id, Inode>, next: Id)

  datatype FsError = NotFound | PermissionDenied | InvalidPath | IsADir | NotADir

  datatype FsResult<+T> = Ok(value: T) | Err(error: FsError)

  datatype OpenOptions = OpenOptions(
    read: bool, write: bool, execute: bool, create: bool, createDir: bool, createAll: bool,
    createLink: bool, noFollowLink: bool)

  datatype UnlinkOptions = UnlinkOptions(force: bool, recursive: bool, noPreserveRoot: bool)

  /** What `open` hands out: a node, or the target of a link it goes on to open. */
  datatype Opened = Node(id: Id) | Follow(target: string)

  const EMPTY := Fs(map[ROOT := Inode(Dir(map[]), RWX)], 1)

  predicate IsDir(fs: Fs, d: Id) {
    d in fs.nodes && fs.nodes[d].kind.Dir?
  }

  function Lookup(fs: Fs, d: Id, name: string): Option<Id> {
    if IsDir(fs, d) && name in fs.nodes[d].kind.entries then Some(fs.nodes[d].kind.entries[name]) else None
  }

  /** Plain resolution of a list of names, permissions aside. */
  function Resolve(fs: Fs, d: Id, names: seq<string>): Option<Id>
    decreases |names|
  {
    if names == [] then Some(d)
    else match Lookup(fs, d, names[0])
      case None => None
      case Some(c) => Resolve(fs, c, names[1..])
  }

  /** `ensure_entry` on a directory. */
  function EnsureEntry(fs: Fs, d: Id, name: string, blank: Inode): (r: (Id, Fs))
    requires IsDir(fs, d)
  {
    var dir := fs.nodes[d];
    if name in dir.kind.entries then (dir.kind.entries[name], fs)
    else
      (fs.next, Fs(fs.nodes[fs.next := blank][d := dir.(kind := Dir(dir.kind.entries[name := fs.next]))], fs.next + 1))
  }

  /** One step of `traverse`: `with_mut_dir` and `ensure_entry` under CREATE_ALL,
      `with_dir` and `get` otherwise. */
  function StepInto(fs: Fs, d: Id, name: string, createAll: bool): (FsResult<Id>, Fs) {
    if createAll then
      if d in fs.nodes && !fs.nodes[d].perms.w then (Err(PermissionDenied), fs)
      else if !IsDir(fs, d) then (Err(InvalidPath), fs)
      else
        var (c, fs') := EnsureEntry(fs, d, name, Inode(Dir(map[]), RWX));
        (Ok(c), fs')
    else if !IsDir(fs, d) then (Err(InvalidPath), fs)
    else match Lookup(fs, d, name)
      case None => (Err(NotFound), fs)
      case Some(c) => (Ok(c), fs)
  }

  /** A plain walk: every node that is walked through must be a directory one may enter;
      the node that is reached need not be. */
  function Walk(fs: Fs, d: Id, names: seq<string>, createAll: bool): (FsResult<Id>, Fs)
    decreases |names|
  {
    if names == [] then (Ok(d), fs)
    else
      var (r, fs') := StepInto(fs, d, names[0], createAll);
      if r.Err? || |names| == 1 then (r, fs')
      else if !IsDir(fs', r.value) then (Err(InvalidPath), fs')
      else if !fs'.nodes[r.value].perms.x then (Err(PermissionDenied), fs')
      else Walk(fs', r.value, names[1..], createAll)
  }

  /** The names below the root that a path spells out. */
  function Names(path: string): seq<string> {
    Split(path)[1..]
  }

  predicate Permits(o: OpenOptions, p: Perms) {
    (o.read ==> p.r) && (o.write ==> p.w) && (o.execute ==> p.x)
  }

  function Checked(o: OpenOptions, fs: Fs, id: Id): (FsResult<Opened>, Fs) {
    (if id in fs.nodes && Permits(o, fs.nodes[id].perms) then Ok(Node(id)) else Err(PermissionDenied), fs)
  }

  /** The node that a creating `open` makes if the name is missing. */
  function Template(o: OpenOptions): Inode {
    if o.createDir then Inode(Dir(map[]), RWX)
    else if o.createLink then Inode(Link([]), RW)
    else Inode(PlainFile, RW)
  }

  predicate IsCreating(o: OpenOptions) {
    o.createAll || o.createDir || o.createLink || o.create
  }

  /** `open` once the parent directory is known. */
  function OpenIn(fs: Fs, parent: Id, path: string, o: OpenOptions): (FsResult<Opened>, Fs) {
    if !IsDir(fs, parent) then (Err(InvalidPath), fs)
    else
      var perms := fs.nodes[parent].perms;
      if !perms.x then (Err(PermissionDenied), fs)
      else if IsCreating(o) && Lookup(fs, parent, File(path)).None? && !perms.w then (Err(PermissionDenied), fs)
      else if path != [] && path[|path| - 1] == SEP then Checked(o, fs, parent)
      else if IsCreating(o) then
        var (id, fs') := EnsureEntry(fs, parent, File(path), Template(o));
        Checked(o, fs', id)
      else
        match Lookup(fs, parent, File(path))
        case None => (Err(NotFound), fs)
        case Some(id) =>
          if !o.noFollowLink && id in fs.nodes && fs.nodes[id].kind.Link?
          then (Ok(Follow(fs.nodes[id].kind.target)), fs)
          else Checked(o, fs, id)
  }

  function Open(fs: Fs, path: string, o: OpenOptions): (FsResult<Opened>, Fs) {
    match Parent(path)
    case None => (Ok(Node(ROOT)), fs)
    case Some(p) =>
      var (r, fs') := Walk(fs, ROOT, Names(p), o.createAll);
      if r.Err? then (Err(r.error), fs') else OpenIn(fs', r.value, path, o)
  }

  function RemoveEntry(fs: Fs, d: Id, name: string): Fs
    requires IsDir(fs, d)
  {
    var dir := fs.nodes[d];
    fs.(nodes := fs.nodes[d := dir.(kind := Dir(dir.kind.entries - {name}))])
  }

  /** `unlink` once the parent directory is known. */
  function UnlinkIn(fs: Fs, parent: Id, path: string, o: UnlinkOptions): (FsResult<Id>, Fs) {
    if parent !in fs.nodes || !fs.nodes[parent].perms.w || !fs.nodes[parent].perms.x then (Err(PermissionDenied), fs)
    else if !IsDir(fs, parent) then (Err(InvalidPath), fs)
    else match Lookup(fs, parent, File(path))
      case None => (Err(NotFound), fs)
      case Some(c) =>
        if IsDir(fs, c) then
          if o.recursive then (Ok(c), RemoveEntry(fs, parent, File(path))) else (Err(IsADir), fs)
        else if path != [] && path[|path| - 1] == SEP then (Err(NotADir), fs)
        else (Ok(c), RemoveEntry(fs, parent, File(path)))
  }

  function Unlink(fs: Fs, path: string, o: UnlinkOptions): (FsResult<Id>, Fs) {
    match Parent(path)
    case Some(p) =>
      var (r, fs') := Walk(fs, ROOT, Names(p), false);
      if r.Err? then (Err(r.error), fs') else UnlinkIn(fs', r.value, path, o)
    case None =>
      if o.noPreserveRoot && o.force && o.recursive then UnlinkIn(fs, ROOT, path, o)
      else (Err(PermissionDenied), fs)
  }

  // ---------------------------------------------------------------- the objects' methods

  /** `RamFS`. A call is one step here; the original locks one directory at a time. */
  class RamFs {
    var tree: Fs

    constructor ()
      ensures tree == EMPTY
    {
      tree := EMPTY;
    }

    /** First the directories above the last name, then the last name by itself: together
        a plain walk of all the names. */
    method Traverse(path: string, createAll: bool) returns (r: FsResult<Id>)
      modifies this
      ensures (r, tree) == Walk(old(tree), ROOT, Names(path), createAll)
    {
      var current := ROOT;
      var parent := Parent(path);
      if parent.None? {
        SplitSegment(path);
        return Ok(current);
      }
      SplitParent(path);
      ghost var names := Names(path);
      var above := Names(parent.value);
      var i := 0;
      while i < |above|
        invariant 0 <= i <= |above| && names == above + [File(path)]
        invariant Walk(old(tree), ROOT, names, createAll) == Walk(tree, current, names[i..], createAll)
      {
        assert names[i..][1..] == names[i + 1..];
        var step := StepInto(tree, current, above[i], createAll);
        tree := step.1;
        if step.0.Err? { return step.0; }
        var child := step.0.value;
        if !IsDir(tree, child) { return Err(InvalidPath); }
        if !tree.nodes[child].perms.x { return Err(PermissionDenied); }
        current := child;
        i := i + 1;
      }
      var last := StepInto(tree, current, File(path), createAll);
      tree := last.1;
      return last.0;
    }

    method OpenPath(path: string, o: OpenOptions) returns (r: FsResult<Opened>)
      modifies this
      ensures (r, tree) == Open(old(tree), path, o)
    {
      var parentPath := Parent(path);
      if parentPath.None? { return Ok(Node(ROOT)); }
      var parent := Traverse(parentPath.value, o.createAll);
      if parent.Err? { return Err(parent.error); }
      var outcome := OpenIn(tree, parent.value, path, o);
      tree := outcome.1;
      return outcome.0;
    }

    method UnlinkPath(path: string, o: UnlinkOptions) returns (r: FsResult<Id>)
      modifies this
      ensures (r, tree) == Unlink(old(tree), path, o)
    {
      var parentPath := Parent(path);
      var parent := ROOT;
      if parentPath.Some? {
        var p := Traverse(parentPath.value, false);
        if p.Err? { return Err(p.error); }
        parent := p.value;
      } else if !(o.noPreserveRoot && o.force && o.recursive) {
        return Err(PermissionDenied);
      }
      var removed := UnlinkIn(tree, parent, path, o);
      tree := removed.1;
      return removed.0;
    }
  }

  // ---------------------------------------------------------------- the tree

  /** Every entry leads to a known node other than the root. */
  ghost predicate EntryIsSound(fs: Fs, d: Id, name: string) {
    Lookup(fs, d, name).Some? ==> Lookup(fs, d, name).value in fs.nodes && Lookup(fs, d, name).value != ROOT
  }

  /** No node has two entries leading to it. */
  ghost predicate EntriesDiffer(fs: Fs, d: Id, m: string, e: Id, n: string) {
    Lookup(fs, d, m).Some? && Lookup(fs, d, m) == Lookup(fs, e, n) ==> d == e && m == n
  }

  ghost predicate IsTree(fs: Fs) {
    && IsDir(fs, ROOT) && (forall i :: i in fs.nodes ==> i < fs.next)
    && (forall d, m {:trigger EntryIsSound(fs, d, m)} :: EntryIsSound(fs, d, m))
    && (forall d, m, e, n {:trigger EntriesDiffer(fs, d, m, e, n)} :: EntriesDiffer(fs, d, m, e, n))
  }

  /** `fs'` has everything `fs` has: the same nodes with the same permissions, and
      directories with at least the same entries. */
  ghost predicate NodeIsKept(fs: Fs, fs': Fs, i: Id) {
    i in fs.nodes ==>
      && i in fs'.nodes && fs'.nodes[i].perms == fs.nodes[i].perms
      && (!fs.nodes[i].kind.Dir? ==> fs'.nodes[i].kind == fs.nodes[i].kind)
      && (fs.nodes[i].kind.Dir? ==>
            fs'.nodes[i].kind.Dir? &&
            forall n :: n in fs.nodes[i].kind.entries ==>
              n in fs'.nodes[i].kind.entries && fs'.nodes[i].kind.entries[n] == fs.nodes[i].kind.entries[n])
  }

  ghost predicate Extends(fs: Fs, fs': Fs) {
    forall i {:trigger NodeIsKept(fs, fs', i)} :: NodeIsKept(fs, fs', i)
  }

  lemma ExtendsTransitive(a: Fs, b: Fs, c: Fs)
    requires Extends(a, b) && Extends(b, c)
    ensures Extends(a, c)
  {
    forall i ensures NodeIsKept(a, c, i) { assert NodeIsKept(a, b, i) && NodeIsKept(b, c, i); }
  }

  lemma LookupIsKept(fs: Fs, fs': Fs, d: Id, name: string)
    requires Extends(fs, fs')
    ensures Lookup(fs, d, name).Some? ==> Lookup(fs', d, name) == Lookup(fs, d, name)
  {
    assert NodeIsKept(fs, fs', d);
  }

  lemma {:induction false} ResolveIsKept(fs: Fs, fs': Fs, d: Id, names: seq<string>)
    requires Extends(fs, fs') && Resolve(fs, d, names).Some?
    ensures Resolve(fs', d, names) == Resolve(fs, d, names)
    decreases |names|
  {
    if names != [] {
      LookupIsKept(fs, fs', d, names[0]);
      ResolveIsKept(fs, fs', Lookup(fs, d, names[0]).value, names[1..]);
    }
  }

  // ---------------------------------------------------------------- creating

  predicate IsBlank(blank: Inode) {
    blank.kind.Dir? ==> blank.kind.entries == map[]
  }

  lemma EnsureEntryLookups(fs: Fs, d: Id, name: string, blank: Inode, e: Id, n: string)
    requires IsTree(fs) && IsDir(fs, d) && IsBlank(blank)
    ensures var (id, fs') := EnsureEntry(fs, d, name, blank);
            Lookup(fs', e, n) == if e == d && n == name then Some(id) else Lookup(fs, e, n)
  {
  }

  /** `ensure_entry` keeps the tree and everything in it, and the entry is there after it. */
  lemma EnsureEntryGrows(fs: Fs, d: Id, name: string, blank: Inode)
    requires IsTree(fs) && IsDir(fs, d) && IsBlank(blank)
    ensures var (id, fs') := EnsureEntry(fs, d, name, blank);
            IsTree(fs') && Extends(fs, fs') && id in fs'.nodes && Lookup(fs', d, name) == Some(id)
  {
    var (id, fs') := EnsureEntry(fs, d, name, blank);
    forall e, m ensures EntryIsSound(fs', e, m) {
      assert EntryIsSound(fs, e, m);
      EnsureEntryLookups(fs, d, name, blank, e, m);
    }
    forall e, m, f, n ensures EntriesDiffer(fs', e, m, f, n) {
      assert EntriesDiffer(fs, e, m, f, n) && EntryIsSound(fs, e, m) && EntryIsSound(fs, f, n);
      EnsureEntryLookups(fs, d, name, blank, e, m);
      EnsureEntryLookups(fs, d, name, blank, f, n);
    }
    EnsureEntryLookups(fs, d, name, blank, d, name);
    assert EntryIsSound(fs', d, name);
    forall i ensures NodeIsKept(fs, fs', i) { }
  }

  /** A walk keeps the tree and everything in it, whether it succeeds or fails half way,
      and a successful walk has followed the names. */
  lemma {:induction false} WalkGrows(fs: Fs, d: Id, names: seq<string>, createAll: bool)
    requires IsTree(fs) && d in fs.nodes
    ensures var (r, fs') := Walk(fs, d, names, createAll);
            && IsTree(fs') && Extends(fs, fs') && (!createAll ==> fs' == fs)
            && (r.Ok? ==> r.value in fs'.nodes && Resolve(fs', d, names) == Some(r.value))
    decreases |names|
  {
    ExtendsSelf(fs);
    if names != [] {
      var (r, mid) := StepInto(fs, d, names[0], createAll);
      if createAll && IsDir(fs, d) { EnsureEntryGrows(fs, d, names[0], Inode(Dir(map[]), RWX)); }
      assert EntryIsSound(fs, d, names[0]);
      if r.Ok? && |names| > 1 && IsDir(mid, r.value) && mid.nodes[r.value].perms.x {
        WalkGrows(mid, r.value, names[1..], createAll);
        var fs' := Walk(mid, r.value, names[1..], createAll).1;
        ExtendsTransitive(fs, mid, fs');
        LookupIsKept(mid, fs', d, names[0]);
      }
    }
  }

  lemma ExtendsSelf(fs: Fs)
    ensures Extends(fs, fs)
  {
    forall i ensures NodeIsKept(fs, fs, i) { }
  }

  /** A walk that succeeded is found again, without creating anything, in every tree that
      has grown from its result. */
  lemma {:induction false} WalkIsRepeatable(fs: Fs, d: Id, names: seq<string>, createAll: bool, later: Fs)
    requires IsTree(fs) && d in fs.nodes && Walk(fs, d, names, createAll).0.Ok?
    requires Extends(Walk(fs, d, names, createAll).1, later)
    ensures Walk(later, d, names, false) == (Walk(fs, d, names, createAll).0, later)
    decreases |names|
  {
    if names != [] {
      var (r, mid) := StepInto(fs, d, names[0], createAll);
      if createAll && IsDir(fs, d) { EnsureEntryGrows(fs, d, names[0], Inode(Dir(map[]), RWX)); }
      assert EntryIsSound(fs, d, names[0]);
      if |names| > 1 {
        WalkGrows(mid, r.value, names[1..], createAll);
        ExtendsTransitive(mid, Walk(mid, r.value, names[1..], createAll).1, later);
        WalkIsRepeatable(mid, r.value, names[1..], createAll, later);
      }
      LookupIsKept(mid, later, d, names[0]);
      assert NodeIsKept(mid, later, d) && NodeIsKept(mid, later, r.value);
    }
  }

  // ---------------------------------------------------------------- open

  lemma OpenInGrows(fs: Fs, parent: Id, path: string, o: OpenOptions)
    requires IsTree(fs)
    ensures var fs' := OpenIn(fs, parent, path, o).1; IsTree(fs') && Extends(fs, fs')
  {
    ExtendsSelf(fs);
    if IsDir(fs, parent) { EnsureEntryGrows(fs, parent, File(path), Template(o)); }
  }

  /** `open`, with any flags and any outcome, keeps the tree; whatever resolved before
      resolves to the same node afterwards. */
  lemma OpenKeepsResolution(fs: Fs, path: string, o: OpenOptions, names: seq<string>)
    requires IsTree(fs)
    ensures var fs' := Open(fs, path, o).1;
            && IsTree(fs') && Extends(fs, fs')
            && (Resolve(fs, ROOT, names).Some? ==> Resolve(fs', ROOT, names) == Resolve(fs, ROOT, names))
  {
    ExtendsSelf(fs);
    var fs' := Open(fs, path, o).1;
    if Parent(path).Some? {
      var up := Names(Parent(path).value);
      var (r, mid) := Walk(fs, ROOT, up, o.createAll);
      WalkGrows(fs, ROOT, up, o.createAll);
      if r.Ok? {
        OpenInGrows(mid, r.value, path, o);
        ExtendsTransitive(fs, mid, fs');
      }
    }
    if Resolve(fs, ROOT, names).Some? { ResolveIsKept(fs, fs', ROOT, names); }
  }

  /** The same request without any creation flag, not following a link at the end. */
  function Plain(o: OpenOptions): OpenOptions {
    o.(create := false, createDir := false, createAll := false, createLink := false, noFollowLink := true)
  }

  lemma OpenInIsRepeatable(fs: Fs, parent: Id, path: string, o: OpenOptions)
    requires IsTree(fs) && OpenIn(fs, parent, path, o).0.Ok? && OpenIn(fs, parent, path, o).0.value.Node?
    ensures var (r, fs') := OpenIn(fs, parent, path, o); OpenIn(fs', parent, path, Plain(o)) == (r, fs')
  {
    EnsureEntryGrows(fs, parent, File(path), Template(o));
    assert NodeIsKept(fs, EnsureEntry(fs, parent, File(path), Template(o)).1, parent);
  }

  /** What an `open` has handed out, however much it created on the way, a plain `open`
      of the same path finds again, and changes nothing. */
  lemma OpenedIsFoundAgain(fs: Fs, path: string, o: OpenOptions)
    requires IsTree(fs) && Open(fs, path, o).0.Ok? && Open(fs, path, o).0.value.Node?
    ensures var (r, fs') := Open(fs, path, o); Open(fs', path, Plain(o)) == (r, fs')
  {
    if Parent(path).Some? {
      var up := Names(Parent(path).value);
      var (r, mid) := Walk(fs, ROOT, up, o.createAll);
      WalkGrows(fs, ROOT, up, o.createAll);
      OpenInGrows(mid, r.value, path, o);
      OpenInIsRepeatable(mid, r.value, path, o);
      WalkIsRepeatable(fs, ROOT, up, o.createAll, OpenIn(mid, r.value, path, o).1);
    }
  }

  lemma OpenInResolves(fs: Fs, parent: Id, path: string, o: OpenOptions)
    requires IsTree(fs) && path != [] && OpenIn(fs, parent, path, o).0.Ok? && OpenIn(fs, parent, path, o).0.value.Node?
    ensures var (r, fs') := OpenIn(fs, parent, path, o);
            if path[|path| - 1] == SEP then r.value.id == parent
            else Lookup(fs', parent, File(path)) == Some(r.value.id)
  {
    EnsureEntryGrows(fs, parent, File(path), Template(o));
  }

  /** Where a successful `open` has been: the node is the one its names resolve to, or,
      with a slash at the end, the directory before the slash. */
  lemma OpenedIsResolved(fs: Fs, path: string, o: OpenOptions)
    requires IsTree(fs) && Parent(path).Some?
    requires Open(fs, path, o).0.Ok? && Open(fs, path, o).0.value.Node?
    ensures var (r, fs') := Open(fs, path, o);
            Resolve(fs', ROOT, Names(if path[|path| - 1] == SEP then Parent(path).value else path)) == Some(r.value.id)
  {
    var p := Parent(path).value;
    var (r, mid) := Walk(fs, ROOT, Names(p), o.createAll);
    WalkGrows(fs, ROOT, Names(p), o.createAll);
    OpenInGrows(mid, r.value, path, o);
    OpenInResolves(mid, r.value, path, o);
    var fs' := OpenIn(mid, r.value, path, o).1;
    ResolveIsKept(mid, fs', ROOT, Names(p));
    SplitParent(path);
    assert Names(path) == Names(p) + [File(path)];
    ResolveLast(fs', ROOT, Names(p), File(path));
  }

  // ---------------------------------------------------------------- unlink

  lemma {:induction false} ResolveLast(fs: Fs, d: Id, names: seq<string>, last: string)
    ensures Resolve(fs, d, names + [last]) ==
              match Resolve(fs, d, names) case None => None case Some(e) => Lookup(fs, e, last)
    decreases |names|
  {
    if names == [] {
      assert names + [last] == [last];
      var c := Lookup(fs, d, last);
      if c.Some? { assert Resolve(fs, c.value, [last][1..]) == Some(c.value); }
    } else {
      assert (names + [last])[1..] == names[1..] + [last];
      var c := Lookup(fs, d, names[0]);
      if c.Some? { ResolveLast(fs, c.value, names[1..], last); }
    }
  }

  /** In a tree, different lists of names lead to different nodes. */
  lemma {:induction false} ResolveIsInjective(fs: Fs, a: seq<string>, b: seq<string>)
    requires IsTree(fs) && Resolve(fs, ROOT, a).Some? && Resolve(fs, ROOT, a) == Resolve(fs, ROOT, b)
    ensures a == b
    decreases |a| + |b|
  {
    if a != [] {
      ResolveLast(fs, ROOT, a[..|a| - 1], a[|a| - 1]);
      assert a == a[..|a| - 1] + [a[|a| - 1]];
    }
    if b != [] {
      ResolveLast(fs, ROOT, b[..|b| - 1], b[|b| - 1]);
      assert b == b[..|b| - 1] + [b[|b| - 1]];
    }
    if a != [] && b != [] {
      var d, e := Resolve(fs, ROOT, a[..|a| - 1]).value, Resolve(fs, ROOT, b[..|b| - 1]).value;
      assert EntriesDiffer(fs, d, a[|a| - 1], e, b[|b| - 1]);
      ResolveIsInjective(fs, a[..|a| - 1], b[..|b| - 1]);
    } else if a != [] {
      NothingLeadsToRoot(fs, a);
    } else if b != [] {
      NothingLeadsToRoot(fs, b);
    }
  }

  lemma NothingLeadsToRoot(fs: Fs, names: seq<string>)
    requires IsTree(fs) && names != []
    ensures Resolve(fs, ROOT, names) != Some(ROOT)
  {
    var front, last := names[..|names| - 1], names[|names| - 1];
    assert names == front + [last];
    ResolveLast(fs, ROOT, front, last);
    var d := Resolve(fs, ROOT, front);
    if d.Some? { assert EntryIsSound(fs, d.value, last); }
  }

  lemma RemoveEntryLookups(fs: Fs, d: Id, name: string, e: Id, n: string)
    requires IsDir(fs, d)
    ensures Lookup(RemoveEntry(fs, d, name), e, n) == if e == d && n == name then None else Lookup(fs, e, n)
  {
  }

  lemma RemoveEntryKeepsTree(fs: Fs, d: Id, name: string)
    requires IsTree(fs) && IsDir(fs, d)
    ensures IsTree(RemoveEntry(fs, d, name))
  {
    var fs' := RemoveEntry(fs, d, name);
    forall e, m ensures EntryIsSound(fs', e, m) {
      assert EntryIsSound(fs, e, m);
      RemoveEntryLookups(fs, d, name, e, m);
    }
    forall e, m, f, n ensures EntriesDiffer(fs', e, m, f, n) {
      assert EntriesDiffer(fs, e, m, f, n);
      RemoveEntryLookups(fs, d, name, e, m);
      RemoveEntryLookups(fs, d, name, f, n);
    }
  }

  /** Removing one entry unresolves exactly what lies at or below it. */
  lemma {:induction false} RemovalIsExact(fs: Fs, dir: seq<string>, d: Id, name: string, q: seq<string>)
    requires IsTree(fs) && IsDir(fs, d) && Resolve(fs, ROOT, dir) == Some(d)
    ensures Resolve(RemoveEntry(fs, d, name), ROOT, q) ==
              if dir + [name] <= q then None else Resolve(fs, ROOT, q)
    decreases |q|
  {
    if q != [] {
      var fs' := RemoveEntry(fs, d, name);
      var front, last := q[..|q| - 1], q[|q| - 1];
      assert q == front + [last];
      RemovalIsExact(fs, dir, d, name, front);
      ResolveLast(fs, ROOT, front, last);
      ResolveLast(fs', ROOT, front, last);
      if dir + [name] <= front {
        assert dir + [name] <= q;
      } else {
        var e := Resolve(fs, ROOT, front);
        if e.Some? {
          RemoveEntryLookups(fs, d, name, e.value, last);
          if e.value == d { ResolveIsInjective(fs, front, dir); }
        }
        assert dir + [name] <= q <==> front == dir && last == name;
      }
    }
  }

  /** The names of the entry that `unlink` removes; without any slash in the path that is
      the empty name in the root. */
  function UnlinkedNames(path: string): seq<string> {
    if Parent(path).Some? then Names(path) else [[]]
  }

  lemma UnlinkInIsExact(fs: Fs, dir: seq<string>, d: Id, path: string, o: UnlinkOptions, q: seq<string>)
    requires IsTree(fs) && Resolve(fs, ROOT, dir) == Some(d)
    ensures var (r, fs') := UnlinkIn(fs, d, path, o);
            && IsTree(fs') && (r.Err? ==> fs' == fs)
            && (r.Ok? ==> Resolve(fs, ROOT, dir + [File(path)]) == Some(r.value))
            && (r.Ok? ==> Resolve(fs', ROOT, q) == if dir + [File(path)] <= q then None else Resolve(fs, ROOT, q))
  {
    ResolveLast(fs, ROOT, dir, File(path));
    if IsDir(fs, d) {
      RemoveEntryKeepsTree(fs, d, File(path));
      RemovalIsExact(fs, dir, d, File(path), q);
    }
  }

  /** A successful `unlink` returns the node its names resolved to and unresolves exactly
      the lists of names that start with them; a failed one changes nothing. */
  lemma UnlinkIsExact(fs: Fs, path: string, o: UnlinkOptions, q: seq<string>)
    requires IsTree(fs)
    ensures var (r, fs') := Unlink(fs, path, o);
            && IsTree(fs') && (r.Err? ==> fs' == fs)
            && (r.Ok? ==> Resolve(fs, ROOT, UnlinkedNames(path)) == Some(r.value))
            && (r.Ok? ==> Resolve(fs', ROOT, q) ==
                            if UnlinkedNames(path) <= q then None else Resolve(fs, ROOT, q))
  {
    match Parent(path)
    case None => UnlinkInIsExact(fs, [], ROOT, path, o, q);
    case Some(p) =>
      WalkGrows(fs, ROOT, Names(p), false);
      SplitParent(path);
      assert Names(path) == Names(p) + [File(path)];
      var r := Walk(fs, ROOT, Names(p), false).0;
      if r.Ok? { UnlinkInIsExact(fs, Names(p), r.value, path, o, q); }
  }

  // ---------------------------------------------------------------- every run

  datatype Op =
    | OpenOp(path: string, options: OpenOptions)
    | UnlinkOp(path: string, unlinkOptions: UnlinkOptions)
    | SetPerms(id: Id, perms: Perms)

  function Apply(fs: Fs, op: Op): Fs {
    match op
    case OpenOp(p, o) => Open(fs, p, o).1
    case UnlinkOp(p, o) => Unlink(fs, p, o).1
    case SetPerms(id, perms) =>
      if id in fs.nodes then fs.(nodes := fs.nodes[id := fs.nodes[id].(perms := perms)]) else fs
  }

  function Run(fs: Fs, ops: seq<Op>): Fs
    decreases |ops|
  {
    if ops == [] then fs else Run(Apply(fs, ops[0]), ops[1..])
  }

  /** The file system is a tree in every run, and so names and nodes stay one to one. */
  lemma {:induction false} RunKeepsTree(fs: Fs, ops: seq<Op>)
    requires IsTree(fs)
    ensures IsTree(Run(fs, ops))
    decreases |ops|
  {
    if ops != [] {
      match ops[0] {
        case OpenOp(p, o) => OpenKeepsResolution(fs, p, o, []);
        case UnlinkOp(p, o) => UnlinkIsExact(fs, p, o, []);
        case SetPerms(id, perms) => SetPermsKeepsTree(fs, id, perms);
      }
      RunKeepsTree(Apply(fs, ops[0]), ops[1..]);
    }
  }

  lemma SetPermsKeepsTree(fs: Fs, id: Id, perms: Perms)
    requires IsTree(fs)
    ensures IsTree(Apply(fs, SetPerms(id, perms)))
  {
    var fs' := Apply(fs, SetPerms(id, perms));
    assert forall d, m :: Lookup(fs', d, m) == Lookup(fs, d, m);
    forall e, m ensures EntryIsSound(fs', e, m) { assert EntryIsSound(fs, e, m); }
    forall e, m, f, n ensures EntriesDiffer(fs', e, m, f, n) { assert EntriesDiffer(fs, e, m, f, n); }
  }

  /** ... starting from the empty file system. */
  lemma EmptyIsTree()
    ensures IsTree(EMPTY)
  {
    forall e, m ensures EntryIsSound(EMPTY, e, m) { }
    forall e, m, f, n ensures EntriesDiffer(EMPTY, e, m, f, n) { }
  }
}
