/** Paths as slash-separated strings: the queries of `Path` and the in-place edits of
    `PathBuf`, canonicalization first of all. */
module Paths {

  import opened KernelTypes

  const SEP: char := '/'

  /** A character in front of a split string: a new segment, or more of the first one. */
  function Glue(c: char, segs: seq<string>): (r: seq<string>)
    requires |segs| >= 1
    ensures |r| >= 1
  {
    if c == SEP then [[]] + segs else [[c] + segs[0]] + segs[1..]
  }

  /** `str::split('/')`: one segment more than there are separators. */
  function Split(s: string): (segs: seq<string>)
    ensures |segs| >= 1
  {
    if s == [] then [[]] else Glue(s[0], Split(s[1..]))
  }

  /** The string of which `Split` makes these segments. */
  function Unsplit(segs: seq<string>): string
    requires |segs| >= 1
  {
    if |segs| == 1 then segs[0] else segs[0] + [SEP] + Unsplit(segs[1..])
  }

  /** Each segment with a slash in front. */
  function Join(segs: seq<string>): string {
    if segs == [] then [] else Join(segs[..|segs| - 1]) + [SEP] + segs[|segs| - 1]
  }

  /** The index of the last separator, or |s| when there is none. */
  function LastSep(s: string): (k: nat)
    ensures k <= |s|
    ensures k < |s| ==> s[k] == SEP && SEP !in s[k + 1..]
    ensures k == |s| ==> SEP !in s
  {
    if s == [] then 0
    else if s[|s| - 1] == SEP then |s| - 1
    else
      var k := LastSep(s[..|s| - 1]);
      assert s == s[..|s| - 1] + [s[|s| - 1]];
      if k == |s| - 1 then |s| else
        assert s[k + 1..] == s[..|s| - 1][k + 1..] + [s[|s| - 1]];
        k
  }

  predicate IsRelative(s: string) {
    s == [] || s[0] != SEP
  }

  /** `Path::parent`: everything before the last separator. */
  function Parent(s: string): (p: Option<string>)
    ensures p.Some? <==> SEP in s
    ensures p.Some? ==> |p.value| < |s| && p.value + [SEP] <= s && SEP !in s[|p.value| + 1..]
  {
    var k := LastSep(s);
    if k == |s| then None else
      assert s == s[..k] + [s[k]] + s[k + 1..];
      Some(s[..k])
  }

  /** `Path::file`: everything after the last separator; empty when there is none. */
  function File(s: string): (f: string)
    ensures SEP !in f
    ensures Parent(s).Some? ==> s == Parent(s).value + [SEP] + f
    ensures Parent(s).None? ==> f == []
  {
    var k := LastSep(s);
    if k == |s| then [] else
      assert s == s[..k] + [s[k]] + s[k + 1..];
      s[k + 1..]
  }

  /** `Path::strip_prefix`. */
  function StripPrefix(s: string, prefix: string): (r: Option<string>)
    ensures r.Some? <==> prefix <= s
    ensures r.Some? ==> s == prefix + r.value
  {
    if prefix <= s then Some(s[|prefix|..]) else None
  }

  // ---------------------------------------------------------------- splitting and joining

  lemma {:induction false} SplitHasNoSep(s: string, i: nat)
    requires i < |Split(s)|
    ensures SEP !in Split(s)[i]
  {
    if s != [] {
      if s[0] == SEP { if i > 0 { SplitHasNoSep(s[1..], i - 1); } }
      else { SplitHasNoSep(s[1..], if i == 0 then 0 else i); }
    }
  }

  lemma {:induction false} UnsplitSplit(s: string)
    ensures Unsplit(Split(s)) == s
  {
    if s != [] {
      UnsplitSplit(s[1..]);
      var rest := Split(s[1..]);
      if s[0] != SEP && |rest| > 1 {
        assert ([[s[0]] + rest[0]] + rest[1..])[1..] == rest[1..];
      }
    }
  }

  lemma {:induction false} SplitSegment(seg: string)
    requires SEP !in seg
    ensures Split(seg) == [seg]
  {
    if seg != [] {
      SplitSegment(seg[1..]);
      assert [seg[0]] + seg[1..] == seg;
    }
  }

  lemma GlueAppend(c: char, xs: seq<string>, ys: seq<string>)
    requires |xs| >= 1
    ensures Glue(c, xs + ys) == Glue(c, xs) + ys
  {
    assert (xs + ys)[1..] == xs[1..] + ys;
  }

  /** Splitting is local to the separator. */
  lemma {:induction false} SplitAround(a: string, b: string)
    ensures Split(a + [SEP] + b) == Split(a) + Split(b)
  {
    if a == [] {
      assert a + [SEP] + b == [SEP] + b;
    } else {
      var s := a + [SEP] + b;
      assert s[1..] == a[1..] + [SEP] + b && s[0] == a[0];
      SplitAround(a[1..], b);
      GlueAppend(a[0], Split(a[1..]), Split(b));
    }
  }

  /** The last segment is the file name, the others are the parent's. */
  lemma SplitParent(s: string)
    requires Parent(s).Some?
    ensures Split(s) == Split(Parent(s).value) + [File(s)]
  {
    SplitAround(Parent(s).value, File(s));
    SplitSegment(File(s));
  }

  /** A joined list of proper segments splits into that list again, after the empty root
      segment. */
  lemma {:induction false} SplitJoin(segs: seq<string>)
    requires forall i :: 0 <= i < |segs| ==> SEP !in segs[i]
    ensures Split(Join(segs)) == [[]] + segs
  {
    if segs != [] {
      var front, last := segs[..|segs| - 1], segs[|segs| - 1];
      SplitJoin(front);
      SplitAround(Join(front), last);
      SplitSegment(last);
      assert segs == front + [last];
    }
  }

  // ---------------------------------------------------------------- canonical form

  const DOT: string := "."
  const DOTDOT: string := ".."

  /** What one segment does to the stack of directories entered so far. */
  function Enter(stack: seq<string>, seg: string): seq<string> {
    if seg == [] || seg == DOT then stack
    else if seg == DOTDOT then (if stack == [] then [] else stack[..|stack| - 1])
    else stack + [seg]
  }

  function Fold(stack: seq<string>, segs: seq<string>): seq<string>
    decreases |segs|
  {
    if segs == [] then stack else Fold(Enter(stack, segs[0]), segs[1..])
  }

  /** The directories a path walks into, from the root. */
  function Resolved(s: string): seq<string> {
    Fold([], Split(s))
  }

  predicate IsProper(seg: string) {
    seg != [] && seg != DOT && seg != DOTDOT && SEP !in seg
  }

  ghost predicate AllProper(segs: seq<string>) {
    forall i :: 0 <= i < |segs| ==> IsProper(segs[i])
  }

  lemma {:induction false} FoldAppend(stack: seq<string>, xs: seq<string>, ys: seq<string>)
    ensures Fold(stack, xs + ys) == Fold(Fold(stack, xs), ys)
    decreases |xs|
  {
    if xs == [] {
      assert xs + ys == ys;
    } else {
      assert (xs + ys)[1..] == xs[1..] + ys;
      FoldAppend(Enter(stack, xs[0]), xs[1..], ys);
    }
  }

  lemma FoldNext(segs: seq<string>, i: nat)
    requires i < |segs|
    ensures Fold([], segs[..i + 1]) == Enter(Fold([], segs[..i]), segs[i])
  {
    assert segs[..i + 1] == segs[..i] + [segs[i]];
    FoldAppend([], segs[..i], [segs[i]]);
  }

  lemma {:induction false} FoldIsProper(stack: seq<string>, segs: seq<string>)
    requires AllProper(stack) && forall i :: 0 <= i < |segs| ==> SEP !in segs[i]
    ensures AllProper(Fold(stack, segs))
    decreases |segs|
  {
    if segs != [] { FoldIsProper(Enter(stack, segs[0]), segs[1..]); }
  }

  /** Proper segments only ever go deeper. */
  lemma {:induction false} FoldProper(stack: seq<string>, segs: seq<string>)
    requires AllProper(segs)
    ensures Fold(stack, segs) == stack + segs
    decreases |segs|
  {
    if segs != [] {
      assert AllProper(segs[1..]);
      FoldProper(stack + [segs[0]], segs[1..]);
    }
  }

  lemma ResolvedIsProper(s: string)
    ensures AllProper(Resolved(s))
  {
    forall i | 0 <= i < |Split(s)| ensures SEP !in Split(s)[i] { SplitHasNoSep(s, i); }
    FoldIsProper([], Split(s));
  }

  lemma JoinProperResolves(segs: seq<string>)
    requires AllProper(segs)
    ensures Resolved(Join(segs)) == segs && Split(Join(segs)) == [[]] + segs
  {
    SplitJoin(segs);
    FoldAppend([], [[]], segs);
    FoldProper([], segs);
  }

  lemma JoinIsRelative(segs: seq<string>)
    ensures IsRelative(Join(segs)) <==> segs == []
    decreases |segs|
  {
    if |segs| > 1 { JoinIsRelative(segs[..|segs| - 1]); }
  }

  /** `PathBuf::push` on the string. */
  function Pushed(s: string, p: string): string {
    if !IsRelative(p) then p else s + [SEP] + p
  }

  /** `PathBuf::up` on the string. */
  function Upped(s: string): string {
    match Parent(s) case None => s case Some(p) => p
  }

  lemma {:induction false} LastSepIs(s: string, k: nat)
    requires k < |s| && s[k] == SEP && SEP !in s[k + 1..]
    ensures LastSep(s) == k
    decreases |s|
  {
    if k < |s| - 1 {
      assert s[k + 1..][|s| - k - 2] == s[|s| - 1];
      assert s[..|s| - 1][k + 1..] == s[k + 1..][..|s| - k - 2];
      LastSepIs(s[..|s| - 1], k);
    }
  }

  /** The parent ends where the last segment's separator is. */
  lemma ParentOf(front: string, last: string)
    requires SEP !in last
    ensures Parent(front + [SEP] + last) == Some(front)
  {
    var s := front + [SEP] + last;
    assert s[|front| + 1..] == last;
    LastSepIs(s, |front|);
    assert s[..|front|] == front;
  }

  /** Popping a joined stack by editing the string. */
  lemma UpOfJoin(segs: seq<string>)
    requires AllProper(segs)
    ensures Upped(Join(segs)) == if segs == [] then [] else Join(segs[..|segs| - 1])
  {
    if segs != [] {
      assert IsProper(segs[|segs| - 1]);
      ParentOf(Join(segs[..|segs| - 1]), segs[|segs| - 1]);
    }
  }

  /** `PathBuf`. */
  class PathBuf {
    var inner: string

    constructor ()
      ensures inner == []
    {
      inner := [];
    }

    method Clear()
      modifies this
      ensures inner == []
    {
      inner := [];
    }

    method Up()
      modifies this
      ensures inner == Upped(old(inner))
    {
      var p := Parent(inner);
      if p.None? { return; }
      inner := inner[..|p.value|];
    }

    method Push(path: string)
      modifies this
      ensures inner == Pushed(old(inner), path)
    {
      if !IsRelative(path) {
        Clear();
        inner := inner + path;
      } else {
        inner := inner + [SEP];
        inner := inner + path;
      }
    }

    /** One segment of the loop in `canonicalize`. */
    method EnterSegment(segment: string, ghost stack: seq<string>)
      requires inner == Join(stack) && AllProper(stack) && SEP !in segment
      modifies this
      ensures inner == Join(Enter(stack, segment)) && AllProper(Enter(stack, segment))
    {
      if segment != [] && segment != DOT {
        if segment == DOTDOT {
          UpOfJoin(stack);
          Up();
        } else {
          assert (stack + [segment])[..|stack|] == stack;
          Push(segment);
        }
      }
    }

    /** The string edits compute the slash-join of the stack of segments.  On a relative
        path the original stops with `todo!`; that is the answer false here. */
    method Canonicalize() returns (ok: bool)
      modifies this
      ensures ok == !IsRelative(old(inner))
      ensures inner == if ok then Join(Resolved(old(inner))) else old(inner)
    {
      if IsRelative(inner) { return false; }
      var root := new PathBuf();
      var segments := Split(inner);
      var i := 0;
      while i < |segments|
        invariant 0 <= i <= |segments| && fresh(root) && inner == old(inner)
        invariant AllProper(Fold([], segments[..i]))
        invariant root.inner == Join(Fold([], segments[..i]))
      {
        FoldNext(segments, i);
        SplitHasNoSep(inner, i);
        root.EnterSegment(segments[i], Fold([], segments[..i]));
        i := i + 1;
      }
      assert segments[..i] == segments;
      inner := root.inner;
      return true;
    }
  }

  /** The canonical string has no empty, "." or ".." segment, splits into the resolved
      stack, and resolves to the same directories as the original. */
  lemma CanonicalForm(s: string)
    ensures var c := Join(Resolved(s));
            AllProper(Resolved(s)) && Split(c) == [[]] + Resolved(s) && Resolved(c) == Resolved(s)
  {
    ResolvedIsProper(s);
    JoinProperResolves(Resolved(s));
  }

  /** A canonical string can be canonicalized again, and is then its own canonical form,
      if and only if the path does not resolve to the root: the root's canonical string
      is empty and counts as relative. */
  lemma CanonicalIsFixedPointIffNotRoot(s: string)
    ensures var c := Join(Resolved(s));
            (!IsRelative(c) && Join(Resolved(c)) == c) <==> Resolved(s) != []
  {
    CanonicalForm(s);
    JoinIsRelative(Resolved(s));
  }

  /** The failing input: "/" becomes the empty string, which cannot be canonicalized again. */
  lemma RootIsNoFixedPoint()
    ensures !IsRelative("/") && Join(Resolved("/")) == "" && IsRelative("")
  {
    assert "/"[1..] == "";
    assert Split("/") == [[], []];
    assert Fold([], [[], []]) == Fold([], [[], []][1..]);
  }

  /** Going on from a canonical prefix leads to the same place as going on from the
      original prefix. */
  lemma CanonicalPrefixComposes(p: string, q: string)
    ensures Resolved(Join(Resolved(p)) + [SEP] + q) == Resolved(p + [SEP] + q)
  {
    CanonicalForm(p);
    SplitAround(p, q);
    SplitAround(Join(Resolved(p)), q);
    FoldAppend([], Split(p), Split(q));
    FoldAppend([], Split(Join(Resolved(p))), Split(q));
  }
}
