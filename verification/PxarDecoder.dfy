/** `Decoder`: the sequential reader, a state machine over the archive's bytes. */
module PxarDecoder {
  import opened Bytes
  import opened Paths
  import opened PxarFormat
  import E = PxarEntry

  const SKIP_BUF_SIZE: nat := 4096

  datatype State = Begin | InDirectory | InPayload(remaining: nat) | Eof

  /** Everything a `Decoder` holds; `pos` is how far its input has been read. */
  datatype Snapshot = Snapshot(pos: nat, path: seq<byte>, pathLengths: seq<nat>,
                               pending: Option<Header>, state: State)

  // ---------------------------------------------------------------- one step, as a function of the bytes

  function Truncate(bytes: seq<byte>, keep: nat): seq<byte> {
    if keep < |bytes| then bytes[..keep] else bytes
  }

  function Skip(data: seq<byte>, pos: nat, n: nat): (r: Result<nat>)
    ensures r.Ok? ==> r.value == pos + n && (n > 0 ==> r.value <= |data|)
  {
    if n == 0 || pos + n <= |data| then Ok(pos + n) else Result<nat>.Err("pxar: unexpected EOF")
  }

  function ReadData(data: seq<byte>, pos: nat, size: nat): (r: Result<seq<byte>>)
    ensures r.Ok? ==> |r.value| == size
  {
    if size > MAX_DATA_LEN then Err("pxar: data section exceeds maximum length")
    else ReadBytes(data, pos, size)
  }

  function TakeHeader(data: seq<byte>, s: Snapshot): (r: Result<(Header, Snapshot)>)
    ensures r.Ok? ==> r.value.1.pending == None && r.value.1.pos >= s.pos
    ensures r.Ok? && s.pending == None ==> s.pos < r.value.1.pos <= |data|
    ensures r.Ok? && s.pending.Some? ==> r.value.1.pos == s.pos
  {
    match s.pending
    case Some(header) => Ok((header, s.(pending := None)))
    case None =>
      var header :- HeaderAt(data, s.pos);
      Ok((header, s.(pos := s.pos + HEADER_SIZE)))
  }

  function ReadRoot(data: seq<byte>, s: Snapshot): (r: Result<(E.Entry, Snapshot)>)
    ensures r.Ok? ==> s.pos < r.value.1.pos <= |data|
  {
    var header :- HeaderAt(data, s.pos);
    if header.htype != PXAR_ENTRY then Err("pxar: archive does not start with an entry")
    else
      var stat :- MetadataAt(data, s.pos + HEADER_SIZE, header);
      if !stat.IsDir() then Err("pxar: root entry is not a directory")
      else Ok((E.Entry(ROOT_PATH, stat, E.Directory),
               s.(pos := s.pos + HEADER_SIZE + STAT_SIZE, path := ROOT_PATH,
                  pathLengths := s.pathLengths + [|ROOT_PATH|], state := InDirectory)))
  }

  function SetPath(s: Snapshot, name: seq<byte>): Result<Snapshot> {
    if s.pathLengths == [] then Err("pxar: path stack underflow")
    else Ok(s.(path := PushPath(Truncate(s.path, s.pathLengths[|s.pathLengths| - 1]), name)))
  }

  function ReadName(data: seq<byte>, header: Header, s: Snapshot): (r: Result<Snapshot>)
    ensures r.Ok? ==> r.value.pos >= s.pos
  {
    var size :- ContentSize(header);
    if size > MAX_FILENAME_LEN then Err("pxar: filename exceeds maximum length")
    else
      var raw :- ReadData(data, s.pos, size);
      if raw == [] || raw[|raw| - 1] != 0 then Err("pxar: file name missing terminating zero")
      else
        var name := raw[..|raw| - 1];
        var _ :- ValidateFilename(name);
        SetPath(s.(pos := s.pos + size), name)
  }

  function ReadNamedEntry(data: seq<byte>, header: Header, s: Snapshot): (r: Result<(E.Entry, Snapshot)>)
    ensures r.Ok? ==> s.pos < r.value.1.pos <= |data|
  {
    var s1 :- ReadName(data, header, s);
    ReadNamedBody(data, s1)
  }

  /** What follows the name of an entry. */
  function ReadNamedBody(data: seq<byte>, s1: Snapshot): (r: Result<(E.Entry, Snapshot)>)
    ensures r.Ok? ==> s1.pos < r.value.1.pos <= |data|
  {
    var entryHeader :- HeaderAt(data, s1.pos);
    if entryHeader.htype != PXAR_ENTRY then Err("pxar: filename not followed by an entry")
    else
      var stat :- MetadataAt(data, s1.pos + HEADER_SIZE, entryHeader);
      var at := s1.pos + HEADER_SIZE + STAT_SIZE;
      var next :- HeaderAt(data, at);
      ReadKind(data, next, stat, s1.(pos := at + HEADER_SIZE))
  }

  function ReadKind(data: seq<byte>, next: Header, stat: Stat, s: Snapshot): (r: Result<(E.Entry, Snapshot)>)
    ensures r.Ok? && s.pos <= |data| ==> s.pos <= r.value.1.pos <= |data|
  {
    var size :- ContentSize(next);
    if next.htype == PXAR_PAYLOAD then
      Ok((E.Entry(s.path, stat, E.File(size, None)), s.(state := InPayload(size))))
    else if next.htype == PXAR_SYMLINK then
      if size > MAX_SYMLINK_LEN then Err("pxar: symlink exceeds maximum length")
      else
        var target :- ReadData(data, s.pos, size);
        Ok((E.Entry(s.path, stat, E.Symlink(target)), s.(pos := s.pos + size, state := InDirectory)))
    else if next.htype == PXAR_FILENAME || next.htype == PXAR_GOODBYE then
      Ok((E.Entry(s.path, stat, E.Directory),
          s.(pending := Some(next), pathLengths := s.pathLengths + [|s.path|], state := InDirectory)))
    else Err("pxar: unsupported entry type")
  }

  /** Skips a goodbye table and closes the directory it belongs to. */
  function LeaveDirectory(data: seq<byte>, header: Header, s: Snapshot): (r: Result<Snapshot>)
    ensures r.Ok? ==> r.value.pos >= s.pos && r.value.pending == s.pending
    ensures r.Ok? ==> r.value.state == if r.value.pathLengths == [] then Eof else s.state
  {
    var size :- ContentSize(header);
    var pos :- Skip(data, s.pos, size);
    if s.pathLengths == [] then Err("pxar: goodbye table without open directory")
    else
      var lengths := s.pathLengths[..|s.pathLengths| - 1];
      Ok(s.(pos := pos, pathLengths := lengths, state := if lengths == [] then Eof else s.state))
  }

  /** The loop of `next_do` once no payload is left to skip. */
  function NextHeader(data: seq<byte>, s: Snapshot): (r: Result<(Option<E.Entry>, Snapshot)>)
    ensures r.Ok? && r.value.0.Some? ==> s.pos < r.value.1.pos <= |data|
    decreases if s.pos <= |data| then |data| - s.pos else 0, if s.pending.Some? then 1 else 0
  {
    var (header, s1) :- TakeHeader(data, s);
    if header.htype == PXAR_FILENAME then
      var (entry, s2) :- ReadNamedEntry(data, header, s1);
      Ok((Some(entry), s2))
    else if header.htype == PXAR_GOODBYE then
      var s2 :- LeaveDirectory(data, header, s1);
      if s2.pathLengths == [] then Ok((None, s2)) else NextHeader(data, s2)
    else Err("pxar: expected filename or goodbye in directory")
  }

  /** `next_do`: the next entry, or none at the end, and the state after it. */
  function NextDo(data: seq<byte>, s: Snapshot): (r: Result<(Option<E.Entry>, Snapshot)>)
    ensures r.Ok? && r.value.0.Some? ==> s.pos < r.value.1.pos <= |data|
  {
    match s.state
    case Eof => Ok((None, s))
    case Begin =>
      var (entry, s1) :- ReadRoot(data, s);
      Ok((Some(entry), s1))
    case InPayload(remaining) =>
      var pos :- Skip(data, s.pos, remaining);
      NextHeader(data, s.(pos := pos, state := InDirectory))
    case InDirectory => NextHeader(data, s)
  }

  /** A method's result and final state are those of its functional description. */
  ghost predicate Agrees<T>(described: Result<(T, Snapshot)>, r: Result<T>, now: Snapshot) {
    match described
    case Ok((value, s)) => r == Ok(value) && now == s
    case Err(m) => r == Err(m)
  }

  // ---------------------------------------------------------------- the decoder

  class Decoder {
    const input: seq<byte>
    var pos: nat
    var path: seq<byte>
    var pathLengths: seq<nat>
    var pending: Option<Header>
    var state: State

    ghost function Now(): Snapshot
      reads this
    {
      Snapshot(pos, path, pathLengths, pending, state)
    }

    constructor FromStd(data: seq<byte>)
      ensures input == data && Now() == Snapshot(0, ROOT_PATH, [], None, Begin)
    {
      input, pos, path, pathLengths, pending, state := data, 0, ROOT_PATH, [], None, Begin;
    }

    method ReadHeader() returns (r: Result<Header>)
      modifies `pos
      ensures r == HeaderAt(input, old(pos))
      ensures r.Ok? ==> pos == old(pos) + HEADER_SIZE
    {
      var buf :- ReadBytes(input, pos, HEADER_SIZE);
      pos := pos + HEADER_SIZE;
      var header := Header(U64At(buf, 0), U64At(buf, 8));
      var _ :- ContentSize(header);
      r := Ok(header);
    }

    method ReadDataBytes(size: nat) returns (r: Result<seq<byte>>)
      modifies `pos
      ensures r == ReadData(input, old(pos), size)
      ensures r.Ok? ==> pos == old(pos) + size
    {
      if size > MAX_DATA_LEN {
        return Err("pxar: data section exceeds maximum length");
      }
      var buf :- ReadBytes(input, pos, size);
      pos := pos + size;
      r := Ok(buf);
    }

    method ReadMetadata(header: Header) returns (r: Result<Stat>)
      modifies `pos
      ensures r == MetadataAt(input, old(pos), header)
      ensures r.Ok? ==> pos == old(pos) + STAT_SIZE
    {
      var size :- ContentSize(header);
      if size != STAT_SIZE {
        return Err("pxar: entry has an unexpected stat size");
      }
      var buf :- ReadDataBytes(STAT_SIZE);
      r := Ok(ParseStat(buf));
    }

    /** Reads and drops `len` bytes, a scratch buffer at a time. */
    method SkipBytes(len: nat) returns (r: Result<()>)
      modifies `pos
      ensures r.Ok? <==> Skip(input, old(pos), len).Ok?
      ensures r.Ok? ==> pos == old(pos) + len
      ensures r.Err? ==> r.error == "pxar: unexpected EOF"
    {
      var left: nat := len;
      while left > 0
        invariant pos + left == old(pos) + len
        invariant left < len ==> pos <= |input|
      {
        var want: nat := if left < SKIP_BUF_SIZE then left else SKIP_BUF_SIZE;
        var _ :- ReadBytes(input, pos, want);
        pos := pos + want;
        left := left - want;
      }
      r := Ok(());
    }

    method ReadRootEntry() returns (r: Result<E.Entry>)
      modifies this
      ensures Agrees(ReadRoot(input, old(Now())), r, Now())
    {
      var header :- ReadHeader();
      if header.htype != PXAR_ENTRY {
        return Err("pxar: archive does not start with an entry");
      }
      var stat :- ReadMetadata(header);
      if !stat.IsDir() {
        return Err("pxar: root entry is not a directory");
      }
      path := ROOT_PATH;
      pathLengths := pathLengths + [|path|];
      state := InDirectory;
      r := Ok(E.Entry(path, stat, E.Directory));
    }

    method MoveTo(name: seq<byte>) returns (r: Result<()>)
      modifies `path
      ensures match SetPath(old(Now()), name)
              case Ok(s) => r == Ok(()) && Now() == s
              case Err(m) => r == Err(m) && path == old(path)
    {
      if pathLengths == [] {
        return Err("pxar: path stack underflow");
      }
      var keep := pathLengths[|pathLengths| - 1];
      path := PushPath(Truncate(path, keep), name);
      r := Ok(());
    }

    method ReadNamed(filenameHeader: Header) returns (r: Result<E.Entry>)
      modifies this
      ensures Agrees(ReadNamedEntry(input, filenameHeader, old(Now())), r, Now())
    {
      hide ReadName, ReadNamedBody;
      var _ :- ReadNameOf(filenameHeader);
      r := ReadNamedRest();
    }

    /** The first half of `read_named_entry`: the name, onto the path. */
    method ReadNameOf(filenameHeader: Header) returns (r: Result<()>)
      modifies this
      ensures match ReadName(input, filenameHeader, old(Now()))
              case Ok(s) => r == Ok(()) && Now() == s
              case Err(m) => r == Err(m)
    {
      hide ValidateFilename, PushPath, Truncate;
      var filenameSize :- ContentSize(filenameHeader);
      if filenameSize > MAX_FILENAME_LEN {
        return Err("pxar: filename exceeds maximum length");
      }
      var name :- ReadDataBytes(filenameSize);
      if name == [] || name[|name| - 1] != 0 {
        return Err("pxar: file name missing terminating zero");
      }
      name := name[..|name| - 1];
      var _ :- ValidateFilename(name);
      r := MoveTo(name);
    }

    /** The second half: entry header, stat and kind. */
    method ReadNamedRest() returns (r: Result<E.Entry>)
      modifies this
      ensures Agrees(ReadNamedBody(input, old(Now())), r, Now())
    {
      hide ReadKind, HeaderAt, MetadataAt;
      var entryHeader :- ReadHeader();
      if entryHeader.htype != PXAR_ENTRY {
        return Err("pxar: filename not followed by an entry");
      }
      var stat :- ReadMetadata(entryHeader);
      var next :- ReadHeader();
      r := ReadEntryKind(next, stat);
    }

    method ReadEntryKind(next: Header, stat: Stat) returns (r: Result<E.Entry>)
      modifies this
      ensures Agrees(ReadKind(input, next, stat, old(Now())), r, Now())
    {
      var size :- ContentSize(next);
      if next.htype == PXAR_PAYLOAD {
        state := InPayload(size);
        r := Ok(E.Entry(path, stat, E.File(size, None)));
      } else if next.htype == PXAR_SYMLINK {
        if size > MAX_SYMLINK_LEN {
          return Err("pxar: symlink exceeds maximum length");
        }
        var target :- ReadDataBytes(size);
        state := InDirectory;
        r := Ok(E.Entry(path, stat, E.Symlink(target)));
      } else if next.htype == PXAR_FILENAME || next.htype == PXAR_GOODBYE {
        pending := Some(next);
        pathLengths := pathLengths + [|path|];
        state := InDirectory;
        r := Ok(E.Entry(path, stat, E.Directory));
      } else {
        r := Err("pxar: unsupported entry type");
      }
    }

    method TakePending() returns (r: Result<Header>)
      modifies `pos, `pending
      ensures Agrees(TakeHeader(input, old(Now())), r, Now())
    {
      if pending.Some? {
        r := Ok(pending.value);
        pending := None;
      } else {
        r := ReadHeader();
      }
    }

    method CloseDirectory(header: Header) returns (r: Result<()>)
      modifies this
      ensures match LeaveDirectory(input, header, old(Now()))
              case Ok(s) => r == Ok(()) && Now() == s
              case Err(m) => r == Err(m)
    {
      var size :- ContentSize(header);
      var _ :- SkipBytes(size);
      if pathLengths == [] {
        return Err("pxar: goodbye table without open directory");
      }
      pathLengths := pathLengths[..|pathLengths| - 1];
      if pathLengths == [] {
        state := Eof;
      }
      r := Ok(());
    }

    method Next() returns (r: Result<Option<E.Entry>>)
      modifies this
      ensures Agrees(NextDo(input, old(Now())), r, Now())
    {
      hide ReadNamedEntry, ReadRoot, TakeHeader, LeaveDirectory;
      while true
        invariant NextDo(input, Now()) == NextDo(input, old(Now()))
        decreases if state.InDirectory? then 0 else 1,
                  if pos <= |input| then |input| - pos else 0, if pending.Some? then 1 else 0
      {
        match state {
          case Eof => return Ok(None);
          case Begin =>
            var entry :- ReadRootEntry();
            return Ok(Some(entry));
          case InPayload(remaining) =>
            var _ :- SkipBytes(remaining);
            state := InDirectory;
          case InDirectory =>
        }

        var header :- TakePending();
        if header.htype == PXAR_FILENAME {
          var entry :- ReadNamed(header);
          return Ok(Some(entry));
        } else if header.htype == PXAR_GOODBYE {
          var _ :- CloseDirectory(header);
          if pathLengths == [] {
            return Ok(None);
          }
        } else {
          return Err("pxar: expected filename or goodbye in directory");
        }
      }
    }

    /** `Contents::read`: some of the current payload, never past it; nothing only when there is
        nothing to give or to fill. The reader below may give any non-empty part of what is asked. */
    method ReadContents(bufLen: nat) returns (chunk: seq<byte>)
      requires pos <= |input|
      modifies `pos, `state
      ensures old(pos) <= pos <= |input| && chunk == input[old(pos)..pos]
      ensures old(state).InPayload? ==> |chunk| <= old(state).remaining
                                        && state == InPayload(old(state).remaining - |chunk|)
      ensures !old(state).InPayload? ==> chunk == [] && state == old(state)
      ensures |chunk| <= bufLen
      ensures chunk == [] ==> !state.InPayload? || state.remaining == 0 || bufLen == 0 || pos == |input|
    {
      if !state.InPayload? {
        return [];
      }
      var remaining := state.remaining;
      if remaining == 0 || bufLen == 0 {
        return [];
      }
      var want: nat := if remaining < bufLen then remaining else bufLen;
      var got: nat :| got <= want && pos + got <= |input| && (got == 0 ==> pos == |input|);
      chunk := input[pos..pos + got];
      pos := pos + got;
      state := InPayload(remaining - got);
    }
  }
}
