/** `Accessor`: random access to one entry of an archive, from its end. */
module PxarAccessor {
  import opened Bytes
  import opened SearchTree
  import opened Paths
  import opened PxarFormat
  import E = PxarEntry

  // ---------------------------------------------------------------- reading at an offset

  /** One `read_at` on bytes `data`: any part of what is asked for, nothing only where there is none. */
  ghost predicate Served(data: seq<byte>, offset: nat, want: nat, chunk: seq<byte>) {
    && |chunk| <= want
    && (chunk != [] ==> offset + |chunk| <= |data| && chunk == data[offset..offset + |chunk|])
    && (chunk == [] ==> want == 0 || offset >= |data|)
  }

  /** An input that serves `data` in pieces of its own choice; whether a read can fail is for the input
      to say, and what it then says for `mayFail` is handed through everything that reads. */
  method ReadAt(data: seq<byte>, offset: nat, want: nat, mayFail: bool) returns (r: Result<seq<byte>>)
    ensures r.Ok? ==> Served(data, offset, want, r.value)
    ensures r.Err? ==> mayFail
  {
    var fails: bool := *;
    if mayFail && fails {
      return Err("read failed");
    }
    if want == 0 || offset >= |data| {
      return Ok([]);
    }
    var got: nat :| 1 <= got <= want && offset + got <= |data|;
    r := Ok(data[offset..offset + got]);
  }

  /** What comes of reading is what is described, or an error where the input can fail. */
  ghost predicate Gives<T>(r: Result<T>, described: Result<T>, mayFail: bool) {
    r == described || (mayFail && r.Err?)
  }

  /** `read_exact_at`: the pieces add up to exactly the slice, however they are cut. */
  method ReadExactAt(data: seq<byte>, start: nat, n: nat, mayFail: bool) returns (r: Result<seq<byte>>)
    ensures Gives(r, ReadBytes(data, start, n), mayFail)
  {
    var buf: seq<byte> := [];
    var offset := start;
    while |buf| < n
      invariant |buf| <= n && offset == start + |buf|
      invariant buf != [] ==> offset <= |data| && buf == data[start..offset]
      decreases n - |buf|
    {
      var got :- ReadAt(data, offset, n - |buf|, mayFail);
      if got == [] {
        return Err("pxar: unexpected EOF");
      }
      assert data[start..offset + |got|] == (if buf == [] then [] else data[start..offset]) + got;
      buf := buf + got;
      offset := offset + |got|;
    }
    r := Ok(buf);
  }

  // ---------------------------------------------------------------- opening a directory

  datatype Directory = Directory(goodbyeOffset: nat, table: seq<GoodbyeItem>, path: seq<byte>)

  function ParseItem(buf: seq<byte>): GoodbyeItem
    requires |buf| == GOODBYE_ITEM_SIZE
  {
    GoodbyeItem(U64At(buf, 0), U64At(buf, 8), U64At(buf, 16))
  }

  /** The items of `raw.chunks_exact(24)`. */
  function ParseTable(raw: seq<byte>): seq<GoodbyeItem> {
    if |raw| < GOODBYE_ITEM_SIZE then []
    else [ParseItem(raw[..GOODBYE_ITEM_SIZE])] + ParseTable(raw[GOODBYE_ITEM_SIZE..])
  }

  /** The number of whole items, tail included, in a section of `size` bytes; none if it is not whole. */
  function WholeItems(size: nat): nat {
    if size % GOODBYE_ITEM_SIZE != 0 then 0 else size / GOODBYE_ITEM_SIZE
  }

  lemma WholeItemsOf(n: nat)
    ensures WholeItems(ItemsSize(n)) == n
  {
    assert n * GOODBYE_ITEM_SIZE % GOODBYE_ITEM_SIZE == 0 && n * GOODBYE_ITEM_SIZE / GOODBYE_ITEM_SIZE == n;
  }

  function OpenAtEnd(data: seq<byte>, end: nat, path: seq<byte>): Result<Directory> {
    if end < GOODBYE_ITEM_SIZE then Err("pxar: goodbye tail does not fit")
    else
      var buf :- ReadBytes(data, end - GOODBYE_ITEM_SIZE, GOODBYE_ITEM_SIZE);
      var tail := ParseItem(buf);
      if tail.hash != PXAR_GOODBYE_TAIL_MARKER then Err("pxar: missing goodbye tail marker")
      else if end < tail.size then Err("pxar: goodbye size out of range")
      else if tail.size < HEADER_SIZE then Err("pxar: goodbye table out of range")
      else
        var tableBytes := tail.size - HEADER_SIZE;
        if WholeItems(tableBytes) == 0 then Err("pxar: invalid goodbye table size")
        else
          var count := WholeItems(tableBytes) - 1;
          var raw :- ReadBytes(data, end - tail.size + HEADER_SIZE, ItemsSize(count));
          Ok(Directory(end - tail.size, ParseTable(raw), path))
  }

  /** `Directory::open_at_end`. */
  method OpenDirectory(data: seq<byte>, end: nat, path: seq<byte>, mayFail: bool) returns (r: Result<Directory>)
    ensures Gives(r, OpenAtEnd(data, end, path), mayFail)
  {
    hide WholeItems, ParseTable, ParseItem;
    if end < GOODBYE_ITEM_SIZE {
      return Err("pxar: goodbye tail does not fit");
    }
    var buf :- ReadExactAt(data, end - GOODBYE_ITEM_SIZE, GOODBYE_ITEM_SIZE, mayFail);
    var tail := ParseItem(buf);
    if tail.hash != PXAR_GOODBYE_TAIL_MARKER {
      return Err("pxar: missing goodbye tail marker");
    }
    if end < tail.size {
      return Err("pxar: goodbye size out of range");
    }
    if tail.size < HEADER_SIZE {
      return Err("pxar: goodbye table out of range");
    }
    var goodbyeOffset := end - tail.size;
    var tableBytes := tail.size - HEADER_SIZE;
    if WholeItems(tableBytes) == 0 {
      return Err("pxar: invalid goodbye table size");
    }
    var count := WholeItems(tableBytes) - 1;
    var raw :- ReadExactAt(data, goodbyeOffset + HEADER_SIZE, ItemsSize(count), mayFail);
    var table := ParseItems(raw);
    r := Ok(Directory(goodbyeOffset, table, path));
  }

  method ParseItems(raw: seq<byte>) returns (table: seq<GoodbyeItem>)
    ensures table == ParseTable(raw)
  {
    table := [];
    var rest := raw;
    while |rest| >= GOODBYE_ITEM_SIZE
      invariant table + ParseTable(rest) == ParseTable(raw)
      decreases |rest|
    {
      table := table + [ParseItem(rest[..GOODBYE_ITEM_SIZE])];
      rest := rest[GOODBYE_ITEM_SIZE..];
    }
    assert table + [] == table;
  }

  // ---------------------------------------------------------------- one name in a directory

  datatype Cursor = Cursor(fileName: seq<byte>, start: nat, end: nat)

  function ReadFilename(data: seq<byte>, fileOffset: nat): Result<(seq<byte>, nat)> {
    var header :- HeaderAt(data, fileOffset);
    if header.htype != PXAR_FILENAME then Err("pxar: expected a filename header")
    else
      var content := header.fullSize - HEADER_SIZE;   // `read_header` has refused smaller ones
      var raw :- ReadBytes(data, fileOffset + HEADER_SIZE, content);
      var name :- NameIn(raw);
      Ok((name, fileOffset + header.fullSize))
  }

  function NameIn(raw: seq<byte>): Result<seq<byte>> {
    if raw == [] || raw[|raw| - 1] != 0 then Err("pxar: file name missing terminating zero")
    else
      var name := raw[..|raw| - 1];
      var _ :- ValidateFilename(name);
      Ok(name)
  }

  function CursorAt(data: seq<byte>, dir: Directory, index: nat): Result<Cursor> {
    if index >= |dir.table| then Err("pxar: goodbye index out of range")
    else
      var item := dir.table[index];
      if dir.goodbyeOffset < item.offset then Err("pxar: goodbye item offset out of range")
      else
        var fileOffset := dir.goodbyeOffset - item.offset;
        var (name, entryOffset) :- ReadFilename(data, fileOffset);
        if fileOffset + item.size >= TWO_64 then Err("pxar: goodbye item size out of range")
        else Ok(Cursor(name, entryOffset, fileOffset + item.size))
  }

  function DecodeEntry(data: seq<byte>, start: nat, end: nat): Result<(Stat, E.EntryKind)> {
    var header :- HeaderAt(data, start);
    if header.htype != PXAR_ENTRY then Err("pxar: expected an entry header")
    else
      var stat :- MetadataAt(data, start + HEADER_SIZE, header);
      var at := start + header.fullSize;
      if at >= end then Ok((stat, E.Directory))
      else
        var item :- HeaderAt(data, at);
        var size := item.fullSize - HEADER_SIZE;
        if item.htype == PXAR_PAYLOAD then Ok((stat, E.File(size, Some(at + HEADER_SIZE))))
        else if item.htype == PXAR_SYMLINK then
          var target :- ReadBytes(data, at + HEADER_SIZE, size);
          Ok((stat, E.Symlink(target)))
        else if item.htype == PXAR_FILENAME || item.htype == PXAR_GOODBYE then Ok((stat, E.Directory))
        else Err("pxar: unsupported entry item")
  }

  datatype FileEntry = FileEntry(entry: E.Entry, entryEnd: nat)

  function DecodeCursor(data: seq<byte>, dir: Directory, cursor: Cursor): Result<FileEntry> {
    var (stat, kind) :- DecodeEntry(data, cursor.start, cursor.end);
    Ok(FileEntry(E.Entry(PushPath(dir.path, cursor.fileName), stat, kind), cursor.end))
  }

  /** The first slot of the duplicate search, from `dup` on, whose file name is the wanted one. */
  function FindNamed(data: seq<byte>, dir: Directory, name: seq<byte>, hash: nat, first: nat, dup: nat): Result<Option<Cursor>>
    decreases Reach(dir.table, first, hash) - dup
  {
    SearchReach(dir.table, first, dup, hash);
    match Search(dir.table, first, dup, hash)
    case None => Ok(None)
    case Some(index) =>
      var cursor :- CursorAt(data, dir, index);
      if cursor.fileName == name then Ok(Some(cursor))
      else FindNamed(data, dir, name, hash, first, dup + 1)
  }

  function LookupComponent(h: Hash, data: seq<byte>, dir: Directory, name: seq<byte>): Result<Option<FileEntry>> {
    match Search(dir.table, 0, 0, h(name))
    case None => Ok(None)
    case Some(first) =>
      var found :- FindNamed(data, dir, name, h(name), first, 0);
      match found
      case None => Ok(None)
      case Some(cursor) =>
        var entry :- DecodeCursor(data, dir, cursor);
        Ok(Some(entry))
  }

  // ---------------------------------------------------------------- the reads behind it

  method ReadHeader(data: seq<byte>, offset: nat, mayFail: bool) returns (r: Result<Header>)
    ensures Gives(r, HeaderAt(data, offset), mayFail)
  {
    var buf :- ReadExactAt(data, offset, HEADER_SIZE, mayFail);
    var header := Header(U64At(buf, 0), U64At(buf, 8));
    if header.fullSize < HEADER_SIZE {
      return Err("pxar item header smaller than the header itself");
    }
    r := Ok(header);
  }

  method ReadMetadata(data: seq<byte>, offset: nat, header: Header, mayFail: bool) returns (r: Result<Stat>)
    ensures Gives(r, MetadataAt(data, offset, header), mayFail)
  {
    hide ParseStat;
    var size :- ContentSize(header);
    if size != STAT_SIZE {
      return Err("pxar: entry has an unexpected stat size");
    }
    var buf :- ReadExactAt(data, offset, STAT_SIZE, mayFail);
    r := Ok(ParseStat(buf));
  }

  method ReadName(data: seq<byte>, fileOffset: nat, mayFail: bool) returns (r: Result<(seq<byte>, nat)>)
    ensures Gives(r, ReadFilename(data, fileOffset), mayFail)
  {
    hide HeaderAt, ValidateFilename;
    var header :- ReadHeader(data, fileOffset, mayFail);
    if header.htype != PXAR_FILENAME {
      return Err("pxar: expected a filename header");
    }
    var content := header.fullSize - HEADER_SIZE;   // `read_header` has refused smaller ones
    var name :- ReadExactAt(data, fileOffset + HEADER_SIZE, content, mayFail);
    if name == [] || name[|name| - 1] != 0 {
      return Err("pxar: file name missing terminating zero");
    }
    name := name[..|name| - 1];
    var _ :- ValidateFilename(name);
    r := Ok((name, fileOffset + header.fullSize));
  }

  method ReadCursor(data: seq<byte>, dir: Directory, index: nat, mayFail: bool) returns (r: Result<Cursor>)
    ensures Gives(r, CursorAt(data, dir, index), mayFail)
  {
    hide ReadFilename;
    if index >= |dir.table| {
      return Err("pxar: goodbye index out of range");
    }
    var item := dir.table[index];
    if dir.goodbyeOffset < item.offset {
      return Err("pxar: goodbye item offset out of range");
    }
    var fileOffset := dir.goodbyeOffset - item.offset;
    var read :- ReadName(data, fileOffset, mayFail);
    if fileOffset + item.size >= TWO_64 {
      return Err("pxar: goodbye item size out of range");
    }
    r := Ok(Cursor(read.0, read.1, fileOffset + item.size));
  }

  method ReadEntry(data: seq<byte>, start: nat, end: nat, mayFail: bool) returns (r: Result<(Stat, E.EntryKind)>)
    ensures Gives(r, DecodeEntry(data, start, end), mayFail)
  {
    hide HeaderAt, MetadataAt, ReadBytes;
    var header :- ReadHeader(data, start, mayFail);
    if header.htype != PXAR_ENTRY {
      return Err("pxar: expected an entry header");
    }
    var stat :- ReadMetadata(data, start + HEADER_SIZE, header, mayFail);
    var at := start + header.fullSize;
    if at >= end {
      return Ok((stat, E.Directory));
    }
    var item :- ReadHeader(data, at, mayFail);
    if item.htype == PXAR_PAYLOAD {
      r := Ok((stat, E.File(item.fullSize - HEADER_SIZE, Some(at + HEADER_SIZE))));
    } else if item.htype == PXAR_SYMLINK {
      var target :- ReadExactAt(data, at + HEADER_SIZE, item.fullSize - HEADER_SIZE, mayFail);
      r := Ok((stat, E.Symlink(target)));
    } else if item.htype == PXAR_FILENAME || item.htype == PXAR_GOODBYE {
      r := Ok((stat, E.Directory));
    } else {
      r := Err("pxar: unsupported entry item");
    }
  }

  /** `lookup_component`: the `dup` loop over equal hashes ends, and finds what `LookupComponent` says. */
  method LookupName(h: Hash, data: seq<byte>, dir: Directory, name: seq<byte>, mayFail: bool)
    returns (r: Result<Option<FileEntry>>)
    ensures Gives(r, LookupComponent(h, data, dir, name), mayFail)
  {
    hide CursorAt, DecodeEntry, Search, Reach;
    var hash := h(name);
    var hit, _ := BstSearchBy(dir.table, 0, 0, hash);
    if hit == None {
      return Ok(None);
    }
    var first := hit.value;
    var dup := 0;
    while true
      invariant FindNamed(data, dir, name, hash, first, dup) == FindNamed(data, dir, name, hash, first, 0)
      decreases Reach(dir.table, first, hash) - dup
    {
      SearchReach(dir.table, first, dup, hash);
      var index, _ := BstSearchBy(dir.table, first, dup, hash);
      if index == None {
        return Ok(None);
      }
      var cursor :- ReadCursor(data, dir, index.value, mayFail);
      if cursor.fileName == name {
        var read :- ReadEntry(data, cursor.start, cursor.end, mayFail);
        return Ok(Some(FileEntry(E.Entry(PushPath(dir.path, cursor.fileName), read.0, read.1), cursor.end)));
      }
      dup := dup + 1;
    }
  }

  // ---------------------------------------------------------------- paths

  datatype Component = RootDir | CurDir | ParentDir | Normal(name: seq<byte>)

  /** The names of a path; a parent component is refused. */
  function Names(path: seq<Component>): Result<seq<seq<byte>>> {
    if path == [] then Ok([])
    else if path[0].ParentDir? then Err(UNSUPPORTED)
    else
      var rest :- Names(path[1..]);
      Ok(if path[0].Normal? then [path[0].name] + rest else rest)
  }

  /** `names` are the normal components of `path` in order, the i-th of them at place `at[i]`. */
  ghost predicate Spells(path: seq<Component>, names: seq<seq<byte>>, at: seq<nat>) {
    && |at| == |names|
    && (forall i :: 0 <= i < |at| ==> at[i] < |path| && path[at[i]] == Normal(names[i]))
    && (forall i, j :: 0 <= i < j < |at| ==> at[i] < at[j])
    && (forall k :: 0 <= k < |path| && path[k].Normal? ==> k in at)
  }

  const UNSUPPORTED: string := "pxar: unsupported path component in lookup"

  /** Every path without a parent component spells a list of names. */
  lemma {:induction false} PathSpells(path: seq<Component>) returns (names: seq<seq<byte>>, at: seq<nat>)
    requires ParentDir !in path
    ensures Spells(path, names, at)
  {
    names, at := [], [];
    if path != [] {
      var n := |path| - 1;
      names, at := PathSpells(path[..n]);
      assert forall k :: 0 <= k < n ==> path[..n][k] == path[k];
      if path[n].Normal? {
        var at' := at + [n];
        assert forall k :: k in at ==> k in at';
        assert at'[|at|] == n;
        names, at := names + [path[n].name], at';
      }
    }
  }

  /** The last component, if it is a name, is the last name. */
  lemma SpellsLast(path: seq<Component>, names: seq<seq<byte>>, at: seq<nat>)
    requires Spells(path, names, at) && path != []
    ensures var n, m := |path| - 1, |names| - 1;
            if path[n].Normal? then names != [] && names[m] == path[n].name && Spells(path[..n], names[..m], at[..m])
            else Spells(path[..n], names, at)
  {
    var n, m := |path| - 1, |names| - 1;
    if path[n].Normal? {
      var i :| 0 <= i < |at| && at[i] == n;
      assert at[m] >= at[i];
      assert forall j :: 0 <= j < m ==> at[j] < at[m];
      assert forall k :: k in at ==> k in at[..m] || k == at[m];
    } else {
      assert forall j :: 0 <= j < |at| ==> at[j] != n;
    }
  }

  lemma {:induction false} NamesAppend(path: seq<Component>, c: Component)
    requires Names(path).Ok? && c != ParentDir
    ensures Names(path + [c]) == Ok(Names(path).value + if c.Normal? then [c.name] else [])
  {
    if path == [] {
      var all := path + [c];
      assert all[1..] == [] && all[0] == c;
      assert Names(all[1..]) == Ok([]);
      if c.Normal? { assert [c.name] + [] == [] + [c.name]; }
    } else {
      assert (path + [c])[1..] == path[1..] + [c];
      NamesAppend(path[1..], c);
      if path[0].Normal? {
        ConcatIsAssociative([path[0].name], Names(path[1..]).value, if c.Normal? then [c.name] else []);
      }
    }
  }

  /** The names a path spells are the ones that are looked up. */
  lemma {:induction false} SpelledNames(path: seq<Component>, names: seq<seq<byte>>, at: seq<nat>)
    requires Spells(path, names, at) && ParentDir !in path
    ensures Names(path) == Ok(names)
    decreases |path|
  {
    if path == [] {
      assert names == [];
    } else {
      hide Spells, Names;
      var n, m := |path| - 1, |names| - 1;
      SpellsLast(path, names, at);
      assert path == path[..n] + [path[n]];
      if path[n].Normal? {
        SpelledNames(path[..n], names[..m], at[..m]);
        assert names == names[..m] + [names[m]];
      } else {
        SpelledNames(path[..n], names, at);
        assert names + [] == names;
      }
      NamesAppend(path[..n], path[n]);
    }
  }

  /** A path is refused exactly for a parent component. */
  lemma {:induction false} ParentIsRefused(path: seq<Component>)
    ensures Names(path).Err? <==> ParentDir in path
    ensures Names(path).Err? ==> Names(path).error == UNSUPPORTED
  {
    if path != [] {
      ParentIsRefused(path[1..]);
      assert ParentDir in path <==> path[0] == ParentDir || ParentDir in path[1..];
    }
  }

  const NOT_A_DIRECTORY: string := "pxar: entry is not a directory"

  function EnterDirectory(data: seq<byte>, entry: FileEntry): Result<Directory> {
    if entry.entry.kind != E.Directory then Err(NOT_A_DIRECTORY)
    else OpenAtEnd(data, entry.entryEnd, entry.entry.path)
  }

  function LookupNames(h: Hash, data: seq<byte>, dir: Directory, names: seq<seq<byte>>): Result<Option<FileEntry>>
    decreases |names|
  {
    if names == [] then Ok(None)
    else
      var entry :- LookupComponent(h, data, dir, names[0]);
      match entry
      case None => Ok(None)
      case Some(e) =>
        if |names| == 1 then Ok(Some(e))
        else
          var next :- EnterDirectory(data, e);
          LookupNames(h, data, next, names[1..])
  }

  function LookupPath(h: Hash, data: seq<byte>, dir: Directory, path: seq<Component>): Result<Option<FileEntry>> {
    var names :- Names(path);
    LookupNames(h, data, dir, names)
  }

  /** `Directory::lookup`, one component per round. */
  method Lookup(h: Hash, data: seq<byte>, dir: Directory, path: seq<Component>, mayFail: bool)
    returns (r: Result<Option<FileEntry>>)
    ensures Gives(r, LookupPath(h, data, dir, path), mayFail)
  {
    hide LookupComponent, OpenAtEnd;
    var names :- Names(path);
    ghost var goal := LookupNames(h, data, dir, names);
    var descended: Option<Directory> := None;
    var result: Option<FileEntry> := None;
    for index := 0 to |names|
      invariant index == 0 || index < |names| ==> result == None
      invariant index == |names| ==> goal == Ok(result)
      invariant index < |names| ==>
        goal == LookupNames(h, data, if descended.Some? then descended.value else dir, names[index..])
    {
      var current := if descended.Some? then descended.value else dir;
      assert names[index..][1..] == names[index + 1..];
      var found :- LookupName(h, data, current, names[index], mayFail);
      if found == None {
        return Ok(None);
      }
      var entry := found.value;
      if index + 1 == |names| {
        result := Some(entry);
      } else {
        if entry.entry.kind != E.Directory {
          return Err(NOT_A_DIRECTORY);
        }
        var next :- OpenDirectory(data, entry.entryEnd, entry.entry.path, mayFail);
        descended := Some(next);
      }
    }
    r := Ok(result);
  }

  // ---------------------------------------------------------------- file contents

  datatype FileContents = FileContents(start: nat, size: nat)

  function Contents(entry: FileEntry): Result<FileContents> {
    match entry.entry.kind
    case File(size, Some(offset)) => Ok(FileContents(offset, size))
    case File(_, None) => Err("pxar: file entry has no content offset")
    case _ => Err("pxar: entry is not a regular file")
  }

  /** `FileContents::read_at`. */
  method ReadContentsAt(data: seq<byte>, c: FileContents, offset: nat, bufLen: nat, mayFail: bool)
    returns (r: Result<seq<byte>>)
    requires c.start + c.size <= |data|
    ensures r.Ok? ==> Served(data[c.start..c.start + c.size], offset, bufLen, r.value)
    ensures r.Err? ==> mayFail && offset < c.size
  {
    if offset >= c.size {
      return Ok([]);
    }
    var remaining := c.size - offset;
    var want := if remaining < bufLen then remaining else bufLen;
    r := ReadAt(data, c.start + offset, want, mayFail);
    if r.Ok? && r.value != [] {
      SliceOfSlice(data, c.start, c.start + c.size, offset, offset + |r.value|);
    }
  }
}
