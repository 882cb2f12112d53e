/** Directory listings: `buffered_display` writes whole entries into a buffer, starting
    from a byte offset, and the display loop restarts it with a moving offset and a
    growing buffer. */
module Listings {

  type Byte = x: int | 0 <= x < 256

  type Name = seq<Byte>

  const TAB: Byte := 9

  function Entry(name: Name): seq<Byte> {
    name + [TAB]
  }

  /** Every name followed by a tab, in order. */
  function Listing(names: seq<Name>): seq<Byte> {
    if names == [] then [] else Entry(names[0]) + Listing(names[1..])
  }

  /** The number of entries skipped to reach `offset`. */
  function Skipped(names: seq<Name>, offset: nat): (k: nat)
    ensures k <= |names|
  {
    if names == [] || offset == 0 then 0
    else
      var len := |Entry(names[0])|;
      1 + Skipped(names[1..], if offset < len then 0 else offset - len)
  }

  /** The number of leading entries that fit into `room` bytes. */
  function Fitting(names: seq<Name>, room: nat): (k: nat)
    ensures k <= |names|
  {
    if names == [] || |Entry(names[0])| > room then 0
    else 1 + Fitting(names[1..], room - |Entry(names[0])|)
  }

  /** The next chunk: the bytes, and whether nothing remains after them. */
  function Chunk(names: seq<Name>, offset: nat, room: nat): (seq<Byte>, bool) {
    var k := Skipped(names, offset);
    var f := Fitting(names[k..], room);
    (Listing(names[k..k + f]), k + f == |names|)
  }

  lemma {:induction false} ListingAppend(xs: seq<Name>, ys: seq<Name>)
    ensures Listing(xs + ys) == Listing(xs) + Listing(ys)
  {
    if xs == [] {
      assert xs + ys == ys;
    } else {
      assert (xs + ys)[1..] == xs[1..] + ys;
      ListingAppend(xs[1..], ys);
    }
  }

  /** An offset on an entry boundary skips exactly the entries before it. */
  lemma {:induction false} SkippedAtBoundary(names: seq<Name>, m: nat)
    requires m <= |names|
    ensures Skipped(names, |Listing(names[..m])|) == m
  {
    if m > 0 {
      assert names[..m][1..] == names[1..][..m - 1];
      SkippedAtBoundary(names[1..], m - 1);
    }
  }

  /** The chosen entries fill the room as far as whole entries can. */
  lemma {:induction false} FittingIsMaximal(names: seq<Name>, room: nat)
    ensures var f := Fitting(names, room);
            && |Listing(names[..f])| <= room
            && (f < |names| ==> |Listing(names[..f])| + |Entry(names[f])| > room)
  {
    if names != [] && |Entry(names[0])| <= room {
      var f := Fitting(names[1..], room - |Entry(names[0])|);
      FittingIsMaximal(names[1..], room - |Entry(names[0])|);
      assert names[..f + 1][1..] == names[1..][..f];
    }
  }

  lemma {:induction false} FittingFirst(names: seq<Name>, room: nat, f: nat)
    requires f < |names|
    requires f <= Fitting(names, room)
    ensures |Listing(names[..f])| <= room
    ensures f < Fitting(names, room) <==> |Listing(names[..f])| + |Entry(names[f])| <= room
  {
    if f > 0 {
      FittingFirst(names[1..], room - |Entry(names[0])|, f - 1);
      assert names[..f][1..] == names[1..][..f - 1];
    }
  }

  /** One more entry after `names[k..i]`: what it adds, and when it is among the fitting. */
  lemma FittingStep(names: seq<Name>, k: nat, i: nat, room: nat)
    requires k <= i < |names| && i - k <= Fitting(names[k..], room)
    ensures Listing(names[k..i + 1]) == Listing(names[k..i]) + Entry(names[i])
    ensures i - k < Fitting(names[k..], room) <==> |Listing(names[k..i])| + |Entry(names[i])| <= room
  {
    FittingFirst(names[k..], room, i - k);
    assert names[k..][..i - k] == names[k..i];
    assert names[k..i + 1] == names[k..i] + [names[i]];
    ListingAppend(names[k..i], [names[i]]);
  }

  /** `buffered_display`: whole entries from the offset on, as many as fit; the rest of
      the buffer keeps its bytes. */
  method BufferedDisplay(names: seq<Name>, buf: array<Byte>, offset: nat) returns (n: nat, done: bool)
    modifies buf
    ensures n <= buf.Length && (buf[..n], done) == Chunk(names, offset, buf.Length)
    ensures buf[n..] == old(buf[n..])
  {
    var written := 0;
    n := 0;
    ghost var k, room := Skipped(names, offset), buf.Length;
    for i := 0 to |names|
      invariant i <= k ==> n == 0 && Skipped(names[i..], if offset < written then 0 else offset - written) == k - i
      invariant i > k ==> written >= offset
      invariant i >= k ==> i - k <= Fitting(names[k..], room) && n == |Listing(names[k..i])|
      invariant n <= room && buf[n..] == old(buf[n..])
      invariant i >= k ==> buf[..n] == Listing(names[k..i])
    {
      var bytes := names[i];
      var total := |bytes| + 1;
      assert names[i..][1..] == names[i + 1..];
      if written < offset {
        written := written + total;
        assert i + 1 == k ==> names[k..i + 1] == [];
      } else {
        assert k <= i;
        FittingStep(names, k, i, room);
        if total + n > buf.Length {
          return n, false;
        }
        CopyEntry(buf, n, bytes);
        n := n + total;
      }
    }
    return n, true;
  }

  /** The two stores of one entry: the name's bytes and the tab behind them. */
  method CopyEntry(buf: array<Byte>, at: nat, bytes: Name)
    requires at + |bytes| + 1 <= buf.Length
    modifies buf
    ensures buf[..at + |bytes| + 1] == old(buf[..at]) + Entry(bytes)
    ensures buf[at + |bytes| + 1..] == old(buf[at + |bytes| + 1..])
  {
    forall i | 0 <= i < |bytes| { buf[at + i] := bytes[i]; }
    buf[at + |bytes|] := TAB;
  }

  /** The bytes delivered from an entry boundary end on an entry boundary, so that a
      reader who moves its offset by them goes on with the next entry. */
  lemma ChunksResume(names: seq<Name>, m: nat, room: nat) returns (m': nat)
    requires m <= |names|
    ensures m <= m' <= |names|
    ensures var (bytes, done) := Chunk(names, |Listing(names[..m])|, room);
            && Listing(names[..m']) == Listing(names[..m]) + bytes
            && |bytes| <= room && (bytes == [] <==> m' == m) && (done <==> m' == |names|)
            && (!done ==> |bytes| + |Entry(names[m'])| > room)
  {
    SkippedAtBoundary(names, m);
    FittingIsMaximal(names[m..], room);
    m' := m + Fitting(names[m..], room);
    assert names[..m'] == names[..m] + names[m..m'];
    assert names[m..][..m' - m] == names[m..m'];
    ListingAppend(names[..m], names[m..m']);
  }

  /** `Display` for a directory, and for the mount table behind its header line as long as no
      mount comes or goes between two chunks: the restarted chunks give each name followed by
      a tab, in order, nothing skipped, repeated or split, for every list of names. */
  method Display(header: seq<Byte>, names: seq<Name>) returns (out: seq<Byte>)
    ensures out == header + Listing(names)
  {
    out := header;
    var buf := new Byte[10](_ => 0);
    var offset := 0;
    ghost var m := 0;
    while true
      invariant 0 <= m <= |names| && buf.Length > 0 && fresh(buf)
      invariant offset == |Listing(names[..m])| && out == header + Listing(names[..m])
      decreases |names| - m, if m < |names| && |Entry(names[m])| > buf.Length then |Entry(names[m])| - buf.Length else 0
    {
      ghost var m' := ChunksResume(names, m, buf.Length);
      assert m' == |names| ==> names[..m'] == names;
      var n, done := BufferedDisplay(names, buf, offset);
      if n == 0 && done {
        break;
      } else if n == 0 {
        buf := Resize(buf, buf.Length * 2);
      } else if done {
        out := out + buf[..n];
        break;
      } else {
        out := out + buf[..n];
        offset := offset + n;
        m := m';
      }
    }
  }

  /** `Vec::resize` to a larger length, filling with zeros. */
  method Resize(buf: array<Byte>, len: nat) returns (bigger: array<Byte>)
    requires buf.Length <= len
    ensures fresh(bigger) && bigger.Length == len
    ensures bigger[..buf.Length] == buf[..] && forall i :: buf.Length <= i < len ==> bigger[i] == 0
  {
    bigger := new Byte[len](_ => 0);
    forall i | 0 <= i < buf.Length { bigger[i] := buf[i]; }
  }
}
