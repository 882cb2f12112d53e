/** The content side of the in-memory file system: reads, writes and the doubling
    `read_to_end` loop of a RAM file, and open files with a cursor on top of it. */
module RamFiles {

  import opened Listings

  const USIZE_MAX: nat := 0xFFFF_FFFF_FFFF_FFFF

  datatype RamNode =
    | SoftLink(target: seq<Byte>)
    | FileNode(data: seq<Byte>)
    | Dir(names: seq<Name>)

  datatype IOError = UnexpectedEOF | NotSupported | PermissionDenied | InvalidPath | Unspecified

  datatype IOResult<+T> = Ok(value: T) | Err(error: IOError)

  function Min(a: nat, b: nat): nat {
    if a <= b then a else b
  }

  function Zeros(n: nat): (z: seq<Byte>)
    ensures |z| == n && forall i :: 0 <= i < n ==> z[i] == 0
  {
    seq(n, _ => 0)
  }

  /** What a write leaves: the bytes put over `data` at `offset`, a gap before them filled
      with zeros. */
  function Spliced(data: seq<Byte>, offset: nat, bytes: seq<Byte>): seq<Byte> {
    var end := offset + |bytes|;
    var padded := if |data| < end then data + Zeros(end - |data|) else data;
    padded[..offset] + bytes + padded[end..]
  }

  /** Byte by byte. */
  lemma SplicedAt(data: seq<Byte>, offset: nat, bytes: seq<Byte>, i: nat)
    requires i < |Spliced(data, offset, bytes)|
    ensures |Spliced(data, offset, bytes)| == if |data| < offset + |bytes| then offset + |bytes| else |data|
    ensures Spliced(data, offset, bytes)[i] ==
              if offset <= i < offset + |bytes| then bytes[i - offset]
              else if i < |data| then data[i]
              else 0
  {
  }

  /** Writing on where the last write ended is one longer write. */
  lemma SplicedCompose(data: seq<Byte>, offset: nat, xs: seq<Byte>, ys: seq<Byte>)
    ensures Spliced(Spliced(data, offset, xs), offset + |xs|, ys) == Spliced(data, offset, xs + ys)
  {
    var once := Spliced(data, offset, xs + ys);
    var twice := Spliced(Spliced(data, offset, xs), offset + |xs|, ys);
    assert |once| == |twice|;
    forall i | 0 <= i < |once| ensures once[i] == twice[i] {
      SplicedAt(data, offset, xs + ys, i);
      SplicedAt(Spliced(data, offset, xs), offset + |xs|, ys, i);
      if i < |Spliced(data, offset, xs)| { SplicedAt(data, offset, xs, i); }
    }
  }

  /** The bytes one read delivers into a buffer of `room` bytes. */
  function Delivered(node: RamNode, room: nat, offset: nat): IOResult<seq<Byte>> {
    match node
    case SoftLink(t) =>
      if offset > |t| then Err(UnexpectedEOF) else Ok(t[offset..offset + Min(|t| - offset, room)])
    case Dir(names) => Ok(Chunk(names, offset, room).0)
    case FileNode(d) =>
      if offset > |d| then Err(UnexpectedEOF) else Ok(d[offset..offset + Min(|d| - offset, room)])
  }

  /** Result and node after one write; `validUtf8` is the verdict of `str::from_utf8`. */
  function Written(node: RamNode, bytes: seq<Byte>, offset: nat, validUtf8: bool): (IOResult<nat>, RamNode) {
    match node
    case SoftLink(_) => if validUtf8 then (Ok(|bytes|), SoftLink(bytes)) else (Err(InvalidPath), node)
    case Dir(_) => (Err(NotSupported), node)
    case FileNode(data) => (Ok(|bytes|), FileNode(Spliced(data, offset, bytes)))
  }

  /** `LockedRamFile`, the lock being held for the duration of each call. */
  class RamFile {
    var node: RamNode
    var size: nat

    /** The recorded size of a file is the length of its content. */
    ghost predicate Valid()
      reads this
    {
      node.FileNode? ==> size == |node.data|
    }

    constructor (node: RamNode)
      requires node.FileNode? ==> node.data == []
      ensures Valid() && this.node == node
    {
      this.node := node;
      size := if node.FileNode? then 0 else USIZE_MAX;
    }

    method Clear() returns (r: IOResult<()>)
      requires Valid()
      modifies this
      ensures Valid()
      ensures r.Ok? <==> old(node).FileNode?
      ensures node == if r.Ok? then FileNode([]) else old(node)
      ensures r.Err? ==> r.error == NotSupported && size == old(size)
    {
      if !node.FileNode? { return Err(NotSupported); }
      node := FileNode([]);
      size := 0;
      return Ok(());
    }

    /** The caller's slice is passed by value and comes back as `buf'`. */
    method Read(buf: seq<Byte>, offset: nat) returns (r: IOResult<nat>, buf': seq<Byte>)
      ensures match Delivered(node, |buf|, offset)
              case Err(e) => r == Err(e) && buf' == buf
              case Ok(bytes) => r == Ok(|bytes|) && |bytes| <= |buf| && buf' == bytes + buf[|bytes|..]
    {
      match node {
        case SoftLink(bytes) =>
          if offset > |bytes| { return Err(UnexpectedEOF), buf; }
          var n := Min(|bytes| - offset, |buf|);
          buf' := bytes[offset..n + offset] + buf[n..];
          return Ok(n), buf';
        case Dir(names) =>
          var a := new Byte[|buf|](i requires 0 <= i < |buf| => buf[i]);
          assert a[..] == buf;
          var n, done := BufferedDisplay(names, a, offset);
          assert a[..] == a[..n] + a[n..];
          return Ok(n), a[..];
        case FileNode(data) =>
          if offset == |data| { return Ok(0), buf; }
          if |data| < offset { return Err(UnexpectedEOF), buf; }
          var len := Min(|data| - offset, |buf|);
          buf' := data[offset..offset + len] + buf[len..];
          return Ok(len), buf';
      }
    }

    /** For a file the buffer is overwritten from its start and doubled until the rest of
        the content fits; for a link or a directory the text is appended to it. */
    method ReadToEnd(buf: seq<Byte>, offset: nat) returns (r: IOResult<nat>, buf': seq<Byte>)
      ensures node.FileNode? ==>
                if offset > |node.data| then r == Err(UnexpectedEOF) && buf' == buf
                else r == Ok(|node.data| - offset) && r.value <= |buf'| && buf'[..r.value] == node.data[offset..]
      ensures node.SoftLink? ==>
                if offset > |node.target| then r == Err(UnexpectedEOF) && buf' == buf
                else r == Ok(|node.target| - offset) && buf' == buf + node.target[offset..]
      ensures node.Dir? ==> r == Ok(|Listing(node.names)|) && buf' == buf + Listing(node.names)
    {
      match node {
        case SoftLink(bytes) =>
          if offset > |bytes| { return Err(UnexpectedEOF), buf; }
          return Ok(|bytes| - offset), buf + bytes[offset..];
        case Dir(names) =>
          var text := Display([], names);
          return Ok(|text|), buf + text;
        case FileNode(data) =>
          r, buf' := DoublingRead(data, buf, offset);
      }
    }

    /** The loop of `read_to_end`. */
    method DoublingRead(ghost data: seq<Byte>, buf: seq<Byte>, start: nat)
      returns (r: IOResult<nat>, buf': seq<Byte>)
      requires node == FileNode(data)
      ensures if start > |data| then r == Err(UnexpectedEOF) && buf' == buf
              else r == Ok(|data| - start) && r.value <= |buf'| && buf'[..r.value] == data[start..]
    {
      var offset, written := start, 0;
      buf' := buf;
      while true
        invariant written <= |buf'| && offset == start + written
        invariant written == 0 ==> offset == start
        invariant start > |data| ==> written == 0 && buf' == buf
        invariant start <= |data| ==> offset <= |data| && buf'[..written] == data[start..offset]
        decreases |data| - offset, |buf'| == written
      {
        var count, slice := Read(buf'[written..], offset);
        if count.Err? { return Err(count.error), buf'; }
        var full := count.value == |buf'[written..]|;
        buf' := buf'[..written] + slice;
        if full {
          buf' := buf' + Zeros((if |buf'| == 0 then 1 else |buf'|) * 2 - |buf'|);
        } else if count.value == 0 {
          return Ok(written), buf';
        }
        written := written + count.value;
        offset := offset + count.value;
      }
    }

    method Write(bytes: seq<Byte>, offset: nat, validUtf8: bool) returns (r: IOResult<nat>)
      requires Valid()
      modifies this
      ensures Valid() && (r, node) == Written(old(node), bytes, offset, validUtf8)
    {
      match node {
        case SoftLink(_) =>
          if !validUtf8 { return Err(InvalidPath); }
          node := SoftLink(bytes);
          return Ok(|bytes|);
        case Dir(_) => return Err(NotSupported);
        case FileNode(data) =>
          var d := data;
          if offset + |bytes| > |d| { d := d + Zeros(offset + |bytes| - |d|); }
          var len := Min(|d| - offset, |bytes|);
          assert bytes[..len] == bytes;
          d := d[..offset] + bytes[..len] + d[offset + len..];
          node := FileNode(d);
          size := |d|;
          return Ok(len);
      }
    }

    /** The default `write_all`: one write of everything, or nothing at all for no bytes. */
    method WriteAll(bytes: seq<Byte>, offset: nat, validUtf8: bool) returns (r: IOResult<()>)
      requires Valid()
      modifies this
      ensures Valid()
      ensures var (w, after) := Written(old(node), bytes, offset, validUtf8);
              if bytes == [] then r.Ok? && node == old(node)
              else node == after && r == if w.Ok? then Ok(()) else Err(w.error)
    {
      var rest, at := bytes, offset;
      while rest != []
        invariant Valid()
        invariant rest == bytes ==> at == offset && node == old(node)
        invariant rest != bytes ==>
                    var (w, after) := Written(old(node), bytes, offset, validUtf8);
                    rest == [] && w.Ok? && node == after
        decreases |rest|
      {
        var n := Write(rest, at, validUtf8);
        if n.Err? { return Err(n.error); }
        if n.value == 0 { return Err(Unspecified); }
        rest := rest[n.value..];
        at := at + n.value;
      }
      return Ok(());
    }
  }

  datatype FPerms = FPerms(read: bool, write: bool, append: bool, truncate: bool, execute: bool)

  function Union(a: FPerms, b: FPerms): FPerms {
    FPerms(a.read || b.read, a.write || b.write, a.append || b.append, a.truncate || b.truncate,
           a.execute || b.execute)
  }

  const NO_PERMS := FPerms(false, false, false, false, false)

  /** An open file: a node, a cursor and permissions. */
  class OpenFile {
    const repr: RamFile
    var cursor: nat
    var perms: FPerms

    constructor (repr: RamFile)
      ensures this.repr == repr && cursor == 0 && perms == NO_PERMS
    {
      this.repr := repr;
      cursor := 0;
      perms := NO_PERMS;
    }

    method SetCursor(offset: nat)
      modifies this`cursor
      ensures cursor == offset
    {
      cursor := offset;
    }

    /** Appending starts at the recorded size; writing with truncation starts on an
        emptied file. */
    method WithPerms(p: FPerms)
      requires repr.Valid()
      modifies this, repr
      ensures repr.Valid() && perms == Union(old(perms), p)
      ensures var truncates := perms.write && perms.truncate;
              && repr.node == (if truncates && old(repr.node).FileNode? then FileNode([]) else old(repr.node))
              && cursor == if truncates then 0 else if perms.append then old(repr.size) else old(cursor)
    {
      perms := Union(perms, p);
      if perms.append { SetCursor(repr.size); }
      if perms.write && perms.truncate {
        var _ := repr.Clear();
        SetCursor(0);
      }
    }

    method ReadContinuous(buf: seq<Byte>) returns (r: IOResult<nat>, buf': seq<Byte>)
      modifies this`cursor
      ensures if !perms.read && !perms.write then r == Err(PermissionDenied)
              else match Delivered(repr.node, |buf|, old(cursor))
                   case Err(e) => r == Err(e)
                   case Ok(bytes) => r == Ok(|bytes|) && |bytes| <= |buf| && buf' == bytes + buf[|bytes|..]
      ensures r.Err? ==> buf' == buf
      ensures cursor == old(cursor) + if r.Ok? then r.value else 0
    {
      if !perms.read && !perms.write { return Err(PermissionDenied), buf; }
      r, buf' := repr.Read(buf, cursor);
      if r.Ok? { cursor := cursor + r.value; }
    }

    /** On a file this is one step of `WriteRun`. */
    method WriteContinuous(bytes: seq<Byte>, validUtf8: bool) returns (r: IOResult<nat>)
      requires repr.Valid()
      modifies this`cursor, repr
      ensures repr.Valid()
      ensures (r, repr.node) == if perms.write then Written(old(repr.node), bytes, old(cursor), validUtf8)
                                else (Err(PermissionDenied), old(repr.node))
      ensures cursor == old(cursor) + if r.Ok? then r.value else 0
      ensures perms.write && old(repr.node).FileNode? ==>
                repr.node.FileNode? && (repr.node.data, cursor) == WriteRun(old(repr.node).data, old(cursor), [bytes])
    {
      if !perms.write { return Err(PermissionDenied); }
      r := repr.Write(bytes, cursor, validUtf8);
      if r.Ok? { cursor := cursor + r.value; }
    }
  }

  /** Content and cursor after a sequence of `write_continuous` calls. */
  function WriteRun(data: seq<Byte>, cursor: nat, chunks: seq<seq<Byte>>): (seq<Byte>, nat)
    decreases |chunks|
  {
    if chunks == [] then (data, cursor)
    else WriteRun(Spliced(data, cursor, chunks[0]), cursor + |chunks[0]|, chunks[1..])
  }

  function Concat(chunks: seq<seq<Byte>>): seq<Byte> {
    if chunks == [] then [] else chunks[0] + Concat(chunks[1..])
  }

  /** Any sequence of writes through one handle is a single splice of the concatenation. */
  lemma {:induction false} WriteRunIsOneSplice(data: seq<Byte>, cursor: nat, chunks: seq<seq<Byte>>)
    requires chunks != []
    ensures WriteRun(data, cursor, chunks) == (Spliced(data, cursor, Concat(chunks)), cursor + |Concat(chunks)|)
    decreases |chunks|
  {
    if |chunks| == 1 {
      assert Concat(chunks[1..]) == [] && chunks[0] + [] == chunks[0];
      assert WriteRun(Spliced(data, cursor, chunks[0]), cursor + |chunks[0]|, chunks[1..]) ==
             (Spliced(data, cursor, chunks[0]), cursor + |chunks[0]|);
    } else {
      WriteRunIsOneSplice(Spliced(data, cursor, chunks[0]), cursor + |chunks[0]|, chunks[1..]);
      SplicedCompose(data, cursor, chunks[0], Concat(chunks[1..]));
    }
  }

  /** On a fresh file, or behind the end of an existing one, the concatenation is what
      ends up there. */
  lemma WritesAppend(data: seq<Byte>, chunks: seq<seq<Byte>>)
    ensures WriteRun(data, |data|, chunks) == (data + Concat(chunks), |data| + |Concat(chunks)|)
  {
    if chunks == [] {
      assert data + [] == data;
    } else {
      WriteRunIsOneSplice(data, |data|, chunks);
      assert Spliced(data, |data|, Concat(chunks)) == data + Concat(chunks);
    }
  }

  /** The bytes of a sequence of `read_continuous` calls with the given buffer sizes. */
  function ReadRun(data: seq<Byte>, cursor: nat, rooms: seq<nat>): seq<Byte>
    requires cursor <= |data|
    decreases |rooms|
  {
    if rooms == [] then []
    else
      var bytes := Delivered(FileNode(data), rooms[0], cursor).value;
      bytes + ReadRun(data, cursor + |bytes|, rooms[1..])
  }

  function Sum(rooms: seq<nat>): nat {
    if rooms == [] then 0 else rooms[0] + Sum(rooms[1..])
  }

  lemma ReadRunStep(data: seq<Byte>, cursor: nat, rooms: seq<nat>)
    requires cursor <= |data| && rooms != []
    ensures var n := Min(|data| - cursor, rooms[0]);
            ReadRun(data, cursor, rooms) == data[cursor..cursor + n] + ReadRun(data, cursor + n, rooms[1..])
  {
  }

  lemma SlicesMeet(data: seq<Byte>, a: nat, b: nat, c: nat)
    requires a <= b <= c <= |data|
    ensures data[a..b] + data[b..c] == data[a..c]
  {
  }

  /** Reading on delivers the content in order, up to the end or up to the buffers' total. */
  lemma {:induction false} ReadRunDelivers(data: seq<Byte>, cursor: nat, rooms: seq<nat>)
    requires cursor <= |data|
    ensures ReadRun(data, cursor, rooms) == data[cursor..cursor + Min(Sum(rooms), |data| - cursor)]
    decreases |rooms|
  {
    if rooms != [] {
      var n := Min(|data| - cursor, rooms[0]);
      var m := Min(Sum(rooms[1..]), |data| - cursor - n);
      ReadRunStep(data, cursor, rooms);
      ReadRunDelivers(data, cursor + n, rooms[1..]);
      SlicesMeet(data, cursor, cursor + n, cursor + n + m);
      assert n + m == Min(Sum(rooms), |data| - cursor);
    }
  }

  /** What was written to a fresh file in any pieces is read back in any pieces. */
  lemma WrittenIsReadBack(chunks: seq<seq<Byte>>, rooms: seq<nat>)
    requires Sum(rooms) >= |Concat(chunks)|
    ensures ReadRun(WriteRun([], 0, chunks).0, 0, rooms) == Concat(chunks)
  {
    WritesAppend([], chunks);
    assert [] + Concat(chunks) == Concat(chunks);
    ReadRunDelivers(Concat(chunks), 0, rooms);
  }
}
