/** `parse_catalog`: tables are read where a directory entry points, directories are walked
    depth first, and no block is walked twice. */
module CatalogReader {
  import opened Bytes
  import opened Paths
  import opened Varint
  import F = CatalogFormat

  const MAX_CATALOG_DEPTH: nat := 1024
  const MAX_CATALOG_ENTRIES: nat := 100_000_000

  datatype RawKind = RawDirectory(child: nat) | RawFile(size: nat, mtime: i64) | RawSymlink | RawHardlink | RawOther

  datatype RawEntry = RawEntry(name: seq<byte>, kind: RawKind)

  datatype EntryKind = Directory | File | Symlink

  datatype ArchiveEntry = ArchiveEntry(path: seq<byte>, kind: EntryKind, size: nat, mode: nat, mtime: i64)

  // ---------------------------------------------------------------- one table, as a function of the bytes

  function ReadKind(table: seq<byte>, pos: nat, typeByte: byte, block: nat): (r: Result<(RawKind, nat)>)
    ensures r.Ok? ==> pos <= r.value.1 && (r.value.1 > pos ==> r.value.1 <= |table|)
    ensures r.Ok? && r.value.0.RawDirectory? ==> r.value.0.child <= block
  {
    if typeByte == F.ENTRY_DIRECTORY then
      var (delta, next) :- DecodeU64(table, pos);
      if delta > block then Err("catalog: directory offset underflow")
      else Ok((RawDirectory(block - delta), next))
    else if typeByte == F.ENTRY_FILE then
      var (size, p) :- DecodeU64(table, pos);
      var (mtime, next) :- DecodeI64(table, p);
      Ok((RawFile(size, mtime), next))
    else if typeByte == F.ENTRY_SYMLINK then Ok((RawSymlink, pos))
    else if typeByte == F.ENTRY_HARDLINK then Ok((RawHardlink, pos))
    else if typeByte == F.ENTRY_BLOCKDEV || typeByte == F.ENTRY_CHARDEV
            || typeByte == F.ENTRY_FIFO || typeByte == F.ENTRY_SOCKET then Ok((RawOther, pos))
    else Err("catalog: unknown entry type")
  }

  /** One entry takes at least two bytes, and its child is never above its own block. */
  function ReadEntry(table: seq<byte>, pos: nat, block: nat): (r: Result<(RawEntry, nat)>)
    ensures r.Ok? ==> pos + 2 <= r.value.1 <= |table|
    ensures r.Ok? && r.value.0.kind.RawDirectory? ==> r.value.0.kind.child <= block
  {
    if pos >= |table| then Err("catalog: unexpected end of data")
    else
      var (nameLen, p) :- DecodeU64(table, pos + 1);
      var name :- SliceAt(table, p, nameLen);
      var (kind, next) :- ReadKind(table, p + nameLen, table[pos], block);
      Ok((RawEntry(name, kind), next))
  }

  function ReadEntries(table: seq<byte>, pos: nat, count: nat, block: nat): (r: Result<seq<RawEntry>>)
    ensures r.Ok? ==> |r.value| == count && (count > 0 ==> pos + 2 * count <= |table|)
    ensures r.Ok? ==> forall e :: e in r.value && e.kind.RawDirectory? ==> e.kind.child <= block
    decreases count
  {
    if count == 0 then Ok([])
    else
      var (entry, next) :- ReadEntry(table, pos, block);
      var rest :- ReadEntries(table, next, count - 1, block);
      Ok([entry] + rest)
  }

  function ReadTable(data: seq<byte>, block: nat): (r: Result<seq<RawEntry>>)
    ensures r.Ok? ==> block < |data| && 2 * |r.value| <= |data|
    ensures r.Ok? ==> forall e :: e in r.value && e.kind.RawDirectory? ==> e.kind.child <= block
  {
    var (len, p) :- DecodeU64(data, block);
    var table :- SliceAt(data, p, len);
    var (count, q) :- DecodeU64(table, 0);
    ReadEntries(table, q, count, block)
  }

  // ---------------------------------------------------------------- the walk, as a function of the bytes

  /** What the walk has produced: the entries emitted and the blocks visited. */
  datatype Walked = Walked(out: seq<ArchiveEntry>, visited: set<nat>)

  function Emit(path: seq<byte>, kind: RawKind): seq<ArchiveEntry> {
    match kind
    case RawDirectory(_) => [ArchiveEntry(path, Directory, 0, 0x1ed, 0)]          // mode 0o755
    case RawFile(size, mtime) => [ArchiveEntry(path, File, size, 0x1a4, mtime)]   // mode 0o644
    case RawHardlink => [ArchiveEntry(path, File, 0, 0x1a4, 0)]
    case RawSymlink => [ArchiveEntry(path, Symlink, 0, 0x1ff, 0)]                 // mode 0o777
    case RawOther => []
  }

  function PushWalk(data: seq<byte>, block: nat, base: seq<byte>, w: Walked, depth: nat): Result<Walked>
    decreases if depth <= MAX_CATALOG_DEPTH then MAX_CATALOG_DEPTH + 1 - depth else 0, 1, 0
  {
    if depth > MAX_CATALOG_DEPTH then Err("catalog: directory nesting too deep")
    else if block in w.visited then Err("catalog: block revisited (shared child)")
    else
      var entries :- ReadTable(data, block);
      WalkEntries(data, entries, base, w.(visited := w.visited + {block}), depth)
  }

  function WalkEntries(data: seq<byte>, entries: seq<RawEntry>, base: seq<byte>, w: Walked, depth: nat): Result<Walked>
    requires depth <= MAX_CATALOG_DEPTH
    decreases MAX_CATALOG_DEPTH + 1 - depth, 0, |entries|
  {
    if entries == [] then Ok(w)
    else if |w.out| >= MAX_CATALOG_ENTRIES then Err("catalog: emitted entry count exceeds limit")
    else
      var path := PushPath(base, entries[0].name);
      var w1 := w.(out := w.out + Emit(path, entries[0].kind));
      var w2 :- if entries[0].kind.RawDirectory? then PushWalk(data, entries[0].kind.child, path, w1, depth + 1) else Ok(w1);
      WalkEntries(data, entries[1..], base, w2, depth)
  }

  /** What the walk does with one entry. */
  function Step(data: seq<byte>, entry: RawEntry, base: seq<byte>, w: Walked, depth: nat): Result<Walked> {
    var path := PushPath(base, entry.name);
    var w1 := w.(out := w.out + Emit(path, entry.kind));
    if entry.kind.RawDirectory? then PushWalk(data, entry.kind.child, path, w1, depth + 1) else Ok(w1)
  }

  lemma StepIsWalk(data: seq<byte>, entries: seq<RawEntry>, base: seq<byte>, w: Walked, depth: nat)
    requires entries != [] && depth <= MAX_CATALOG_DEPTH
    ensures WalkEntries(data, entries, base, w, depth)
         == if |w.out| >= MAX_CATALOG_ENTRIES then Err("catalog: emitted entry count exceeds limit")
            else
              var step := Step(data, entries[0], base, w, depth);
              if step.Ok? then WalkEntries(data, entries[1..], base, step.value, depth) else step
  {
    hide PushPath, Emit;
  }

  lemma WalkEntriesEnd(data: seq<byte>, entries: seq<RawEntry>, base: seq<byte>, w: Walked, depth: nat)
    requires depth <= MAX_CATALOG_DEPTH
    ensures WalkEntries(data, entries[|entries|..], base, w, depth) == Ok(w)
    ensures entries[0..] == entries
  {
  }

  /** A root entry: directories are walked without their name, files are kept, the rest is dropped. */
  function RootStep(data: seq<byte>, entry: RawEntry, w: Walked): Result<Walked> {
    match entry.kind
    case RawDirectory(child) => PushWalk(data, child, [], w, 0)
    case RawFile(_, _) =>
      if |w.out| >= MAX_CATALOG_ENTRIES then Err("catalog: emitted entry count exceeds limit")
      else Ok(w.(out := w.out + Emit(entry.name, entry.kind)))
    case _ => Ok(w)
  }

  function WalkRoot(data: seq<byte>, entries: seq<RawEntry>, w: Walked): Result<Walked>
    decreases |entries|
  {
    if entries == [] then Ok(w)
    else
      var w1 :- RootStep(data, entries[0], w);
      WalkRoot(data, entries[1..], w1)
  }

  function ParseWalk(data: seq<byte>): Result<Walked> {
    if !(F.CATALOG_MAGIC <= data) then Err("catalog: invalid magic")
    else
      var root := FromLittleEndian(data[|data| - 8..]);
      var entries :- ReadTable(data, root);
      WalkRoot(data, entries, Walked([], {root}))
  }

  function ParseCatalog(data: seq<byte>): Result<seq<ArchiveEntry>> {
    var w :- ParseWalk(data);
    Ok(w.out)
  }

  // ---------------------------------------------------------------- the parser

  /** The entries read so far, followed by those still to come. */
  function After(done: seq<RawEntry>, rest: Result<seq<RawEntry>>): Result<seq<RawEntry>> {
    match rest
    case Ok(entries) => Ok(done + entries)
    case Err(m) => Err(m)
  }

  lemma NothingBefore(rest: Result<seq<RawEntry>>)
    ensures After([], rest) == rest
  {
    if rest.Ok? {
      assert [] + rest.value == rest.value;
    }
  }

  lemma OneMoreEntry(done: seq<RawEntry>, table: seq<byte>, pos: nat, count: nat, block: nat)
    requires count > 0
    ensures After(done, ReadEntries(table, pos, count, block))
         == match ReadEntry(table, pos, block) {
              case Ok((entry, next)) => After(done + [entry], ReadEntries(table, next, count - 1, block))
              case Err(m) => Err(m)
            }
  {
    hide ReadEntry;
    match ReadEntry(table, pos, block) {
      case Ok((entry, next)) =>
        var rest := ReadEntries(table, next, count - 1, block);
        if rest.Ok? {
          assert done + ([entry] + rest.value) == done + [entry] + rest.value;
        }
      case Err(_) =>
    }
  }

  method ReadTableAt(data: seq<byte>, block: nat) returns (r: Result<seq<RawEntry>>)
    ensures r == ReadTable(data, block)
  {
    hide ReadEntry, DecodeU64, SliceAt;
    var outer := new Cursor(data, block);
    var len :- outer.U64();
    var table :- outer.Take(len);

    var cursor := new Cursor(table, 0);
    var count :- cursor.U64();
    var entries: seq<RawEntry> := [];
    var left := count;
    NothingBefore(ReadEntries(table, cursor.pos, left, block));
    while left > 0
      invariant cursor.data == table
      invariant left <= count
      invariant After(entries, ReadEntries(table, cursor.pos, left, block)) == ReadTable(data, block)
    {
      OneMoreEntry(entries, table, cursor.pos, left, block);
      var entry :- ReadEntryAt(cursor, block);
      entries := entries + [entry];
      left := left - 1;
    }
    assert entries + [] == entries;
    r := Ok(entries);
  }

  method ReadEntryAt(cursor: Cursor, block: nat) returns (r: Result<RawEntry>)
    modifies cursor
    ensures match ReadEntry(cursor.data, old(cursor.pos), block)
            case Ok((entry, next)) => r == Ok(entry) && cursor.pos == next
            case Err(m) => r == Err(m)
  {
    hide ReadKind, DecodeU64;
    var typeByte :- cursor.Byte();
    var nameLen :- cursor.U64();
    var name :- cursor.Take(nameLen);
    var kind :- ReadKindAt(cursor, typeByte, block);
    r := Ok(RawEntry(name, kind));
  }

  method ReadKindAt(cursor: Cursor, typeByte: byte, block: nat) returns (r: Result<RawKind>)
    modifies cursor
    ensures match ReadKind(cursor.data, old(cursor.pos), typeByte, block)
            case Ok((kind, next)) => r == Ok(kind) && cursor.pos == next
            case Err(m) => r == Err(m)
  {
    if typeByte == F.ENTRY_DIRECTORY {
      var delta :- cursor.U64();
      if delta > block {
        return Err("catalog: directory offset underflow");
      }
      r := Ok(RawDirectory(block - delta));
    } else if typeByte == F.ENTRY_FILE {
      var size :- cursor.U64();
      var mtime :- cursor.I64();
      r := Ok(RawFile(size, mtime));
    } else if typeByte == F.ENTRY_SYMLINK {
      r := Ok(RawSymlink);
    } else if typeByte == F.ENTRY_HARDLINK {
      r := Ok(RawHardlink);
    } else if typeByte == F.ENTRY_BLOCKDEV || typeByte == F.ENTRY_CHARDEV
           || typeByte == F.ENTRY_FIFO || typeByte == F.ENTRY_SOCKET {
      r := Ok(RawOther);
    } else {
      r := Err("catalog: unknown entry type");
    }
  }

  /** The walk's accumulators. `walked` lists the blocks in the order their walks began. */
  class Walker {
    const data: seq<byte>
    var out: seq<ArchiveEntry>
    var visited: set<nat>
    ghost var walked: seq<nat>

    /** No block is walked twice, and the visited set is exactly the walked blocks and the root. */
    ghost predicate Valid(root: nat)
      reads this
    {
      && (forall i, j :: 0 <= i < j < |walked| ==> walked[i] != walked[j])
      && root !in walked
      && visited == (set b | b in walked) + {root}
    }

    constructor (data: seq<byte>, root: nat)
      ensures Valid(root) && this.data == data && out == [] && visited == {root} && walked == []
    {
      this.data, out, visited, walked := data, [], {root}, [];
    }

    ghost function Now(): Walked
      reads this
    {
      Walked(out, visited)
    }

    method Visit(block: nat, ghost root: nat)
      requires Valid(root) && block !in visited
      modifies this
      ensures Valid(root) && walked == old(walked) + [block]
      ensures visited == old(visited) + {block} && out == old(out)
    {
      visited := visited + {block};
      walked := walked + [block];
    }

    method Walk(block: nat, base: seq<byte>, depth: nat, ghost root: nat) returns (r: Result<()>)
      requires Valid(root)
      modifies this
      ensures Valid(root) && old(walked) <= walked
      ensures match PushWalk(data, block, base, old(Now()), depth)
              case Ok(w) => r == Ok(()) && Now() == w
              case Err(m) => r == Err(m)
      decreases if depth <= MAX_CATALOG_DEPTH then MAX_CATALOG_DEPTH + 1 - depth else 0
    {
      hide ReadTable, PushPath, Emit, WalkEntries;
      if depth > MAX_CATALOG_DEPTH {
        return Err("catalog: directory nesting too deep");
      }
      if block in visited {
        return Err("catalog: block revisited (shared child)");
      }
      Visit(block, root);
      var entries :- ReadTableAt(data, block);
      ghost var goal := WalkEntries(data, entries, base, Now(), depth);
      WalkEntriesEnd(data, entries, base, Now(), depth);
      for i := 0 to |entries|
        invariant Valid(root) && old(walked) <= walked
        invariant WalkEntries(data, entries[i..], base, Now(), depth) == goal
      {
        var entry := entries[i];
        assert entries[i..][1..] == entries[i + 1..];
        StepIsWalk(data, entries[i..], base, Now(), depth);
        if |out| >= MAX_CATALOG_ENTRIES {
          return Err("catalog: emitted entry count exceeds limit");
        }
        var path := PushPath(base, entry.name);
        out := out + Emit(path, entry.kind);
        if entry.kind.RawDirectory? {
          var _ :- Walk(entry.kind.child, path, depth + 1, root);
        }
      }
      WalkEntriesEnd(data, entries, base, Now(), depth);
      r := Ok(());
    }
  }

  method Parse(data: seq<byte>) returns (r: Result<seq<ArchiveEntry>>)
    ensures r == ParseCatalog(data)
  {
    hide ReadTable, PushWalk;
    if !(F.CATALOG_MAGIC <= data) {
      return Err("catalog: invalid magic");
    }
    var root := FromLittleEndian(data[|data| - 8..]);
    var walker := new Walker(data, root);
    var entries :- ReadTableAt(data, root);
    ghost var goal := WalkRoot(data, entries, Walked([], {root}));
    for i := 0 to |entries|
      invariant walker.data == data && walker.Valid(root)
      invariant WalkRoot(data, entries[i..], walker.Now()) == goal
    {
      var entry := entries[i];
      assert entries[i..][1..] == entries[i + 1..];
      match entry.kind {
        case RawDirectory(child) =>
          var _ :- walker.Walk(child, [], 0, root);
        case RawFile(_, _) =>
          if |walker.out| >= MAX_CATALOG_ENTRIES {
            return Err("catalog: emitted entry count exceeds limit");
          }
          walker.out := walker.out + Emit(entry.name, entry.kind);
        case _ =>
      }
    }
    r := Ok(walker.out);
  }
}
