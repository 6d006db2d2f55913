/** What the two readers of an archive promise on any bytes, written by the encoder or not. */
module PxarAnyBytes {
  import opened Bytes
  import opened Paths
  import opened PxarFormat
  import opened PxarDecoder
  import T = PxarRoundTrip
  import A = PxarAccessor
  import S = SearchTree
  import E = PxarEntry

  ghost predicate AllValid(names: seq<seq<byte>>) {
    forall i :: 0 <= i < |names| ==> ValidName(names[i])
  }

  lemma ValidAreProper(names: seq<seq<byte>>)
    requires AllValid(names)
    ensures AllProper(names)
  {
    forall i | 0 <= i < |names| ensures Proper(names[i]) {
      NamesRefused(names[i]);
    }
  }

  lemma ValidNext(names: seq<seq<byte>>, name: seq<byte>)
    requires AllValid(names) && ValidName(name)
    ensures AllValid(names + [name])
    ensures PushPath(Absolute(names), name) == Absolute(names + [name])
  {
    hide Absolute, PushPath;
    ValidAreProper(names);
    NamesRefused(name);
    PushedIsSlashed(names, name);
  }

  lemma {:induction false} AbsolutePrefix(names: seq<seq<byte>>, n: nat)
    requires n <= |names|
    ensures Absolute(names[..n]) <= Absolute(names)
    decreases |names|
  {
    if n == |names| {
      assert names[..n] == names;
    } else {
      SlashedLast(names);
      var front := names[..|names| - 1];
      AbsolutePrefix(front, n);
      assert front[..n] == names[..n];
      hide Slashed;
      NothingSlashed();
    }
  }

  // ---------------------------------------------------------------- the sequential reader

  /** The open directories are the root and those that `above` leads through; the path begins with them. */
  ghost predicate Inside(s: Snapshot, above: seq<seq<byte>>) {
    && AllValid(above) && |s.pathLengths| == |above| + 1
    && (forall i :: 0 <= i <= |above| ==> s.pathLengths[i] == |Absolute(above[..i])|)
    && Absolute(above) <= s.path
    && (s.state.InDirectory? || s.state.InPayload?)
  }

  lemma NameStep(data: seq<byte>, header: Header, s: Snapshot, above: seq<seq<byte>>) returns (name: seq<byte>)
    requires Inside(s, above) && ReadName(data, header, s).Ok?
    ensures ValidName(name)
    ensures var s1 := ReadName(data, header, s).value; s1 == s.(pos := s1.pos, path := Absolute(above + [name]))
  {
    hide Absolute, PushPath, ValidateFilename, ReadData;
    var raw := ReadData(data, s.pos, ContentSize(header).value).value;
    name := raw[..|raw| - 1];
    assert above[..|above|] == above;
    assert Truncate(s.path, s.pathLengths[|above|]) == Absolute(above);
    ValidNext(above, name);
  }

  lemma BodyStep(data: seq<byte>, s: Snapshot)
    requires ReadNamedBody(data, s).Ok?
    ensures var (entry, s1) := ReadNamedBody(data, s).value;
            && entry.path == s1.path == s.path
            && s1.pathLengths == s.pathLengths + (if entry.kind.Directory? then [|s.path|] else [])
            && (s1.state.InDirectory? || s1.state.InPayload?)
  {
    hide HeaderAt, MetadataAt, ReadData;
  }

  lemma InsideNext(s: Snapshot, s1: Snapshot, above: seq<seq<byte>>, name: seq<byte>, directory: bool)
    requires Inside(s, above) && ValidName(name) && s1.path == Absolute(above + [name])
    requires s1.pathLengths == s.pathLengths + (if directory then [|s1.path|] else [])
    requires s1.state.InDirectory? || s1.state.InPayload?
    ensures Inside(s1, if directory then above + [name] else above)
  {
    hide Absolute, ValidateFilename;
    var all := above + [name];
    assert all[..|above|] == above && all[..|all|] == all;
    AbsolutePrefix(all, |above|);
    assert forall i :: 0 <= i <= |above| ==> all[..i] == above[..i];
  }

  lemma NamedStep(data: seq<byte>, header: Header, s: Snapshot, above: seq<seq<byte>>) returns (name: seq<byte>)
    requires Inside(s, above) && ReadNamedEntry(data, header, s).Ok?
    ensures var (entry, s1) := ReadNamedEntry(data, header, s).value;
            && ValidName(name) && entry.path == Absolute(above + [name])
            && Inside(s1, if entry.kind.Directory? then above + [name] else above)
  {
    hide Absolute, Inside, ValidateFilename, ReadName, ReadNamedBody;
    name := NameStep(data, header, s, above);
    var s0 := ReadName(data, header, s).value;
    BodyStep(data, s0);
    var (entry, s1) := ReadNamedBody(data, s0).value;
    InsideNext(s, s1, above, name, entry.kind.Directory?);
  }

  lemma LeaveStep(data: seq<byte>, header: Header, s: Snapshot, above: seq<seq<byte>>)
    requires Inside(s, above) && LeaveDirectory(data, header, s).Ok?
    ensures var s1 := LeaveDirectory(data, header, s).value;
            if above == [] then s1.pathLengths == [] else Inside(s1, above[..|above| - 1])
  {
    hide Absolute, ValidateFilename;
    if above != [] {
      var front := above[..|above| - 1];
      AbsolutePrefix(above, |front|);
      assert forall i :: 0 <= i <= |front| ==> front[..i] == above[..i];
    }
  }

  /** An entry is a child of one of the directories that are open, under a valid name. */
  lemma {:induction false} HeaderStep(data: seq<byte>, s: Snapshot, above: seq<seq<byte>>) returns (n: nat, name: seq<byte>)
    requires Inside(s, above) && NextHeader(data, s).Ok? && NextHeader(data, s).value.0.Some?
    ensures n <= |above| && ValidName(name)
    ensures var (entry, s1) := (NextHeader(data, s).value.0.value, NextHeader(data, s).value.1);
            && entry.path == Absolute(above[..n] + [name])
            && Inside(s1, if entry.kind.Directory? then above[..n] + [name] else above[..n])
    decreases if s.pos <= |data| then |data| - s.pos else 0, if s.pending.Some? then 1 else 0
  {
    hide Absolute, ValidateFilename, ReadNamedEntry, LeaveDirectory;
    var (header, s0) := TakeHeader(data, s).value;
    assert Inside(s0, above);
    hide Inside;
    if header.htype == PXAR_FILENAME {
      n := |above|;
      assert above[..n] == above;
      name := NamedStep(data, header, s0, above);
    } else {
      LeaveStep(data, header, s0, above);
      var s1 := LeaveDirectory(data, header, s0).value;
      var front := above[..|above| - 1];
      n, name := HeaderStep(data, s1, front);
      assert front[..n] == above[..n];
    }
  }

  lemma EntryStep(data: seq<byte>, s: Snapshot, above: seq<seq<byte>>) returns (n: nat, name: seq<byte>)
    requires Inside(s, above) && NextDo(data, s).Ok? && NextDo(data, s).value.0.Some?
    ensures n <= |above| && ValidName(name)
    ensures var (entry, s1) := (NextDo(data, s).value.0.value, NextDo(data, s).value.1);
            && entry.path == Absolute(above[..n] + [name])
            && Inside(s1, if entry.kind.Directory? then above[..n] + [name] else above[..n])
  {
    hide Absolute, ValidateFilename, NextHeader;
    var s0 := if s.state.InPayload? then s.(pos := s.pos + s.state.remaining, state := InDirectory) else s;
    n, name := HeaderStep(data, s0, above);
  }

  // ---------------------------------------------------------------- whole listings

  ghost predicate DirectoryListed(earlier: seq<T.Listed>, path: seq<byte>) {
    exists j :: 0 <= j < |earlier| && earlier[j].entry.kind.Directory? && earlier[j].entry.path == path
  }

  /** The entry has the path of a directory listed before it, and one valid name below that. */
  ghost predicate BelowListed(entry: E.Entry, earlier: seq<T.Listed>) {
    exists above: seq<seq<byte>>, name: seq<byte> ::
      AllValid(above + [name]) && entry.path == Absolute(above + [name]) && DirectoryListed(earlier, Absolute(above))
  }

  ghost predicate AllListed(earlier: seq<T.Listed>, above: seq<seq<byte>>) {
    forall n :: 0 <= n <= |above| ==> DirectoryListed(earlier, Absolute(above[..n]))
  }

  lemma ListedLater(earlier: seq<T.Listed>, more: seq<T.Listed>, path: seq<byte>)
    requires DirectoryListed(earlier, path)
    ensures DirectoryListed(earlier + more, path)
  {
    var j :| 0 <= j < |earlier| && earlier[j].entry.kind.Directory? && earlier[j].entry.path == path;
    assert (earlier + more)[j] == earlier[j];
  }

  lemma AllListedNext(earlier: seq<T.Listed>, l: T.Listed, above: seq<seq<byte>>, n: nat, name: seq<byte>)
    requires AllListed(earlier, above) && n <= |above| && l.entry.path == Absolute(above[..n] + [name])
    ensures AllListed(earlier + [l], if l.entry.kind.Directory? then above[..n] + [name] else above[..n])
  {
    hide Absolute, DirectoryListed;
    var all := above[..n] + [name];
    forall i | 0 <= i <= n ensures DirectoryListed(earlier + [l], Absolute(above[..i])) {
      ListedLater(earlier, [l], Absolute(above[..i]));
    }
    assert forall i :: 0 <= i <= n ==> above[..n][..i] == above[..i] == all[..i];
    if l.entry.kind.Directory? {
      LastListed(earlier, l);
      assert all[..n + 1] == all;
    }
  }

  lemma LastListed(earlier: seq<T.Listed>, l: T.Listed)
    requires l.entry.kind.Directory?
    ensures DirectoryListed(earlier + [l], l.entry.path)
  {
    assert (earlier + [l])[|earlier|] == l;
  }

  lemma DrainParts(data: seq<byte>, s: Snapshot)
    requires T.Drain(data, s).Ok? && T.Drain(data, s).value.0 != []
    ensures NextDo(data, s).Ok? && NextDo(data, s).value.0.Some? && T.Drain(data, NextDo(data, s).value.1).Ok?
    ensures s.pos < NextDo(data, s).value.1.pos <= |data|
    ensures var (list, s1) := (T.Drain(data, s).value.0, NextDo(data, s).value.1);
            list[0].entry == NextDo(data, s).value.0.value && list == [list[0]] + T.Drain(data, s1).value.0
  {
    hide NextDo, T.CurrentPayload;
  }

  lemma FrontMoves<X>(earlier: seq<X>, x: X, rest: seq<X>, i: nat)
    requires 0 < i <= |rest|
    ensures earlier + [x] + rest[..i - 1] == earlier + ([x] + rest)[..i] && ([x] + rest)[i] == rest[i - 1]
    ensures earlier + ([x] + rest)[..0] == earlier
  {
  }

  lemma {:induction false} DrainIsTree(data: seq<byte>, s: Snapshot, above: seq<seq<byte>>, earlier: seq<T.Listed>)
    requires Inside(s, above) && AllListed(earlier, above) && T.Drain(data, s).Ok?
    ensures var list := T.Drain(data, s).value.0;
            forall i :: 0 <= i < |list| ==> BelowListed(list[i].entry, earlier + list[..i])
    decreases if s.pos <= |data| then |data| - s.pos else 0
  {
    hide *;
    var list := T.Drain(data, s).value.0;
    if list != [] {
      DrainParts(data, s);
      var n, name := EntryStep(data, s, above);
      var (entry, s1) := (NextDo(data, s).value.0.value, NextDo(data, s).value.1);
      var open := if entry.kind.Directory? then above[..n] + [name] else above[..n];
      AllListedNext(earlier, list[0], above, n, name);
      DrainIsTree(data, s1, open, earlier + [list[0]]);
      EntryBelow(s, above, n, name, entry, earlier);
      var rest := T.Drain(data, s1).value.0;
      forall i | 0 <= i < |list| ensures BelowListed(list[i].entry, earlier + list[..i]) {
        if i == 0 {
          assert earlier + list[..0] == earlier;
        } else {
          FrontMoves(earlier, list[0], rest, i);
        }
      }
    }
  }

  lemma EntryBelow(s: Snapshot, above: seq<seq<byte>>, n: nat, name: seq<byte>, entry: E.Entry, earlier: seq<T.Listed>)
    requires Inside(s, above) && AllListed(earlier, above) && n <= |above| && ValidName(name)
    requires entry.path == Absolute(above[..n] + [name])
    ensures BelowListed(entry, earlier)
  {
    hide Absolute, DirectoryListed, ValidateFilename;
    assert AllValid(above[..n] + [name]);
  }

  /** Whatever the bytes are: what a fresh decoder lists begins with the root, and every further entry
      stands under one valid name in a directory that was listed before it. So no path has an empty
      component, `.` or `..`, and none leads out of the root. */
  lemma ListingIsTree(data: seq<byte>)
    requires T.Drain(data, Snapshot(0, ROOT_PATH, [], None, Begin)).Ok?
    ensures var list := T.Drain(data, Snapshot(0, ROOT_PATH, [], None, Begin)).value.0;
            && list != [] && list[0].entry.path == [47] && list[0].entry.kind.Directory?
            && forall i :: 0 < i < |list| ==> BelowListed(list[i].entry, list[..i])
  {
    var s := Snapshot(0, ROOT_PATH, [], None, Begin);
    var list := T.Drain(data, s).value.0;
    RootStep(data);
    hide *;
    DrainParts(data, s);
    var s1 := NextDo(data, s).value.1;
    var rest := T.Drain(data, s1).value.0;
    LastListed([], list[0]);
    assert [] + [list[0]] == [list[0]];
    RootListed(list[0]);
    DrainIsTree(data, s1, [], [list[0]]);
    forall i | 0 < i < |list| ensures BelowListed(list[i].entry, list[..i]) {
      FrontMoves([], list[0], rest, i);
      assert [] + list[..i] == list[..i];
    }
  }

  lemma RootStep(data: seq<byte>)
    requires T.Drain(data, Snapshot(0, ROOT_PATH, [], None, Begin)).Ok?
    ensures var s := Snapshot(0, ROOT_PATH, [], None, Begin);
            && T.Drain(data, s).value.0 != [] && NextDo(data, s).Ok? && NextDo(data, s).value.0.Some?
            && NextDo(data, s).value.0.value.path == [47] && NextDo(data, s).value.0.value.kind.Directory?
            && Inside(NextDo(data, s).value.1, [])
  {
    var s := Snapshot(0, ROOT_PATH, [], None, Begin);
    assert ROOT_PATH == [47] && Absolute([]) == [47];
    hide HeaderAt, MetadataAt, Slashed, T.CurrentPayload;
    assert NextDo(data, s).Ok?;
  }

  lemma RootListed(l: T.Listed)
    requires l.entry.path == [47] && l.entry.kind.Directory?
    ensures AllListed([l], [])
  {
    hide Slashed;
    assert [l][0] == l;
    assert Absolute([][..0]) == [47];
  }

  // ---------------------------------------------------------------- the random-access reader

  lemma CursorIsValid(data: seq<byte>, dir: A.Directory, index: nat)
    requires A.CursorAt(data, dir, index).Ok?
    ensures ValidName(A.CursorAt(data, dir, index).value.fileName)
  {
    hide HeaderAt, ReadBytes, ValidateFilename;
  }

  lemma {:induction false} FoundIsNamed(data: seq<byte>, dir: A.Directory, name: seq<byte>, hash: nat, first: nat, dup: nat)
    requires A.FindNamed(data, dir, name, hash, first, dup).Ok? && A.FindNamed(data, dir, name, hash, first, dup).value.Some?
    ensures ValidName(name) && A.FindNamed(data, dir, name, hash, first, dup).value.value.fileName == name
    decreases S.Reach(dir.table, first, hash) - dup
  {
    hide A.CursorAt, S.Search, S.Reach, ValidateFilename;
    S.SearchReach(dir.table, first, dup, hash);
    var index := S.Search(dir.table, first, dup, hash).value;
    CursorIsValid(data, dir, index);
    if A.CursorAt(data, dir, index).value.fileName != name {
      FoundIsNamed(data, dir, name, hash, first, dup + 1);
    }
  }

  lemma ComponentIsNamed(h: Hash, data: seq<byte>, dir: A.Directory, name: seq<byte>, above: seq<seq<byte>>)
    requires A.LookupComponent(h, data, dir, name).Ok? && A.LookupComponent(h, data, dir, name).value.Some?
    requires dir.path == Absolute(above) && AllValid(above)
    ensures ValidName(name)
    ensures A.LookupComponent(h, data, dir, name).value.value.entry.path == Absolute(above + [name])
  {
    hide Absolute, A.CursorAt, A.DecodeEntry, S.Search, S.Reach, ValidateFilename, A.FindNamed;
    FoundIsNamed(data, dir, name, h(name), S.Search(dir.table, 0, 0, h(name)).value, 0);
    ValidNext(above, name);
  }

  /** Whatever the bytes are: what a lookup finds is reported under exactly the names that were asked
      for, and these are valid. */
  lemma {:induction false} LookupIsNamed(h: Hash, data: seq<byte>, dir: A.Directory, names: seq<seq<byte>>, above: seq<seq<byte>>)
    requires A.LookupNames(h, data, dir, names).Ok? && A.LookupNames(h, data, dir, names).value.Some?
    requires dir.path == Absolute(above) && AllValid(above)
    ensures AllValid(names) && A.LookupNames(h, data, dir, names).value.value.entry.path == Absolute(above + names)
    decreases |names|
  {
    hide Absolute, A.LookupComponent, ValidateFilename, A.OpenAtEnd;
    ComponentIsNamed(h, data, dir, names[0], above);
    var further := above + [names[0]];
    if |names| > 1 {
      var entry := A.LookupComponent(h, data, dir, names[0]).value.value;
      var next := A.EnterDirectory(data, entry).value;
      OpenedPath(data, entry);
      LookupIsNamed(h, data, next, names[1..], further);
      assert further + names[1..] == above + names;
      assert forall i :: 1 <= i < |names| ==> names[i] == names[1..][i - 1];
    } else {
      assert further == above + names;
    }
  }

  lemma OpenedPath(data: seq<byte>, entry: A.FileEntry)
    requires A.EnterDirectory(data, entry).Ok?
    ensures A.EnterDirectory(data, entry).value.path == entry.entry.path
  {
  }

  // ---------------------------------------------------------------- what was read stands there

  lemma HeaderStands(data: seq<byte>, at: nat)
    requires HeaderAt(data, at).Ok?
    ensures var header := HeaderAt(data, at).value;
            header.htype < TWO_64 && Occurs(data, at, EncodeHeader(header.htype, header.fullSize - HEADER_SIZE))
  {
    var buf := data[at..at + HEADER_SIZE];
    FromLittleEndianRoundTrip(buf[0..8]);
    FromLittleEndianRoundTrip(buf[8..16]);
    assert buf == buf[0..8] + buf[8..16];
    hide LittleEndian, FromLittleEndian;
  }

  lemma UnsignedAgain(v: u64)
    ensures ToUnsigned(ToSigned(v)) == v
  {
  }

  /** All of a stat but the four bytes behind it, which are not looked at. */
  lemma StatStands(buf: seq<byte>)
    requires |buf| == STAT_SIZE
    ensures StatBytes(ParseStat(buf))[..36] == buf[..36]
  {
    assert STAT_SIZE == 40;
    hide *;
    WordsAgain(buf);
    UnsignedAgain(U64At(buf, 24));
    StatFields(ParseStat(buf));
    CutAt(buf, 0, 8, 36);
    CutAt(buf, 8, 16, 36);
    CutAt(buf, 16, 20, 36);
    CutAt(buf, 20, 24, 36);
    CutAt(buf, 24, 32, 36);
    StatFieldsOf(buf);
  }

  lemma CutAt<X>(s: seq<X>, a: nat, b: nat, c: nat)
    requires a <= b <= c <= |s|
    ensures s[a..c] == s[a..b] + s[b..c] && s[..c] == s[0..c]
  {
  }

  lemma StatFieldsOf(buf: seq<byte>)
    requires |buf| == STAT_SIZE
    ensures var s := ParseStat(buf);
            && s.mode == U64At(buf, 0) && s.flags == U64At(buf, 8) && s.uid == U32At(buf, 16) && s.gid == U32At(buf, 20)
            && s.secs == ToSigned(U64At(buf, 24)) && s.nanos == U32At(buf, 32)
  {
    hide U64At, U32At, ToSigned;
  }

  lemma WordsAgain(buf: seq<byte>)
    requires |buf| == STAT_SIZE
    ensures LE64(U64At(buf, 0)) == buf[0..8] && LE64(U64At(buf, 8)) == buf[8..16]
    ensures LE32(U32At(buf, 16)) == buf[16..20] && LE32(U32At(buf, 20)) == buf[20..24]
    ensures LE64(U64At(buf, 24)) == buf[24..32] && LE32(U32At(buf, 32)) == buf[32..36]
  {
    hide LittleEndian, FromLittleEndian;
    FromLittleEndianRoundTrip(buf[0..8]);
    FromLittleEndianRoundTrip(buf[8..16]);
    FromLittleEndianRoundTrip(buf[16..20]);
    FromLittleEndianRoundTrip(buf[20..24]);
    FromLittleEndianRoundTrip(buf[24..32]);
    FromLittleEndianRoundTrip(buf[32..36]);
  }

  lemma StatFields(s: Stat)
    ensures StatBytes(s)[..36]
         == LE64(s.mode) + (LE64(s.flags) + (LE32(s.uid) + (LE32(s.gid) + (LE64(ToUnsigned(s.secs)) + LE32(s.nanos)))))
  {
    hide LE64, LE32;
  }

  /** The head of what `kind` says stands at `body`. */
  ghost predicate ItemStands(data: seq<byte>, body: nat, kind: E.EntryKind) {
    match kind
    case File(size, offset) =>
      Occurs(data, body, EncodeHeader(PXAR_PAYLOAD, size)) && (offset.Some? ==> offset.value == body + HEADER_SIZE)
    case Symlink(target) => Occurs(data, body, EncodeHeader(PXAR_SYMLINK, |target|)) && Occurs(data, body + HEADER_SIZE, target)
    case Directory => true
  }

  /** The bytes at `at` are an entry header with `stat` behind it, and then the head of what `kind` says;
      a directory may also end at once. */
  ghost predicate EntryStands(data: seq<byte>, at: nat, stat: Stat, kind: E.EntryKind) {
    && Occurs(data, at, EncodeHeader(PXAR_ENTRY, STAT_SIZE))
    && at + HEADER_SIZE + STAT_SIZE <= |data| && Occurs(data, at + HEADER_SIZE, StatBytes(stat)[..36])
    && ItemStands(data, at + HEADER_SIZE + STAT_SIZE, kind)
  }

  predicate GoesInside(next: Header) {
    next.htype == PXAR_FILENAME || next.htype == PXAR_GOODBYE
  }

  lemma MetadataStands(data: seq<byte>, at: nat)
    requires HeaderAt(data, at).Ok? && HeaderAt(data, at).value.htype == PXAR_ENTRY
    requires MetadataAt(data, at + HEADER_SIZE, HeaderAt(data, at).value).Ok?
    ensures var header := HeaderAt(data, at).value;
            && header.fullSize == HEADER_SIZE + STAT_SIZE && at + header.fullSize <= |data|
            && EntryStands(data, at, MetadataAt(data, at + HEADER_SIZE, header).value, E.Directory)
  {
    HeaderStands(data, at);
    var buf := data[at + HEADER_SIZE..at + HEADER_SIZE + STAT_SIZE];
    StatStands(buf);
    SliceOfSlice(data, at + HEADER_SIZE, at + HEADER_SIZE + STAT_SIZE, 0, 36);
    hide HeaderAt, EncodeHeader, StatBytes, ParseStat;
  }

  lemma BytesStand(data: seq<byte>, at: nat, n: nat)
    requires ReadBytes(data, at, n).Ok? && at <= |data|
    ensures Occurs(data, at, ReadBytes(data, at, n).value)
  {
  }

  lemma HeaderInside(data: seq<byte>, at: nat)
    requires HeaderAt(data, at).Ok?
    ensures at + HEADER_SIZE <= |data|
  {
  }

  lemma ItemRead(data: seq<byte>, body: nat)
    requires HeaderAt(data, body).Ok?
    ensures var next := HeaderAt(data, body).value;
            var size := next.fullSize - HEADER_SIZE;
            && (next.htype == PXAR_PAYLOAD ==> ItemStands(data, body, E.File(size, None))
                                               && ItemStands(data, body, E.File(size, Some(body + HEADER_SIZE))))
            && (next.htype == PXAR_SYMLINK && ReadBytes(data, body + HEADER_SIZE, size).Ok? ==>
                  ItemStands(data, body, E.Symlink(ReadBytes(data, body + HEADER_SIZE, size).value)))
  {
    hide HeaderAt, EncodeHeader, Occurs, ReadBytes;
    HeaderStands(data, body);
    HeaderInside(data, body);
    var next := HeaderAt(data, body).value;
    var size := next.fullSize - HEADER_SIZE;
    if ReadBytes(data, body + HEADER_SIZE, size).Ok? { BytesStand(data, body + HEADER_SIZE, size); }
  }

  lemma EntryFrom(data: seq<byte>, at: nat, stat: Stat, kind: E.EntryKind)
    requires EntryStands(data, at, stat, E.Directory) && ItemStands(data, at + HEADER_SIZE + STAT_SIZE, kind)
    ensures EntryStands(data, at, stat, kind)
  {
  }

  /** The sequential reader: what it reports of an entry is what stands behind the name. */
  lemma NextStands(data: seq<byte>, s: Snapshot, entry: E.Entry, s1: Snapshot)
    requires ReadNamedBody(data, s) == Ok((entry, s1))
    ensures EntryStands(data, s.pos, entry.stat, entry.kind)
    ensures entry.kind.Directory? ==>
              s1.pending.Some? && GoesInside(s1.pending.value)
              && HeaderAt(data, s.pos + HEADER_SIZE + STAT_SIZE) == Ok(s1.pending.value)
  {
    hide HeaderAt, MetadataAt, EncodeHeader, StatBytes, Occurs, ReadBytes, EntryStands, ItemStands;
    var body := s.pos + HEADER_SIZE + STAT_SIZE;
    MetadataStands(data, s.pos);
    ItemRead(data, body);
    DirectoryStands(data, body);
    EntryFrom(data, s.pos, entry.stat, entry.kind);
  }

  lemma DirectoryStands(data: seq<byte>, body: nat)
    ensures ItemStands(data, body, E.Directory)
  {
  }

  /** The name a sequential read took stands before it, closed by a zero. */
  lemma NameStands(data: seq<byte>, header: Header, s: Snapshot) returns (name: seq<byte>)
    requires ReadName(data, header, s).Ok? && s.pos <= |data| && s.pathLengths != []
    ensures Occurs(data, s.pos, name + [0]) && |name| + 1 == header.fullSize - HEADER_SIZE && ValidName(name)
    ensures ReadName(data, header, s).value.path == PushPath(Truncate(s.path, s.pathLengths[|s.pathLengths| - 1]), name)
  {
    hide PushPath, Truncate, ValidateFilename;
    var raw := ReadData(data, s.pos, ContentSize(header).value).value;
    name := raw[..|raw| - 1];
    BytesStand(data, s.pos, ContentSize(header).value);
    assert raw == name + [0];
  }

  /** The random-access reader: the same of what stands where the table points. */
  lemma DecodedStands(data: seq<byte>, start: nat, end: nat, stat: Stat, kind: E.EntryKind)
    requires A.DecodeEntry(data, start, end) == Ok((stat, kind))
    ensures EntryStands(data, start, stat, kind)
    ensures var body := start + HEADER_SIZE + STAT_SIZE;
            kind.Directory? <==> body >= end || (HeaderAt(data, body).Ok? && GoesInside(HeaderAt(data, body).value))
  {
    hide HeaderAt, MetadataAt, EncodeHeader, StatBytes, Occurs, ReadBytes, EntryStands, ItemStands;
    var body := start + HEADER_SIZE + STAT_SIZE;
    MetadataStands(data, start);
    if body < end { ItemRead(data, body); }
    DirectoryStands(data, body);
    EntryFrom(data, start, stat, kind);
  }

  lemma FilenameStands(data: seq<byte>, at: nat, name: seq<byte>, next: nat)
    requires A.ReadFilename(data, at) == Ok((name, next))
    ensures Occurs(data, at, EncodeFilename(name)) && next == at + |EncodeFilename(name)|
  {
    hide HeaderAt, EncodeHeader, ValidateFilename, Occurs, ReadBytes;
    HeaderStands(data, at);
    HeaderInside(data, at);
    var content := HeaderAt(data, at).value.fullSize - HEADER_SIZE;
    BytesStand(data, at + HEADER_SIZE, content);
    var raw := ReadBytes(data, at + HEADER_SIZE, content).value;
    assert name == raw[..|raw| - 1] && raw == name + [0] && |raw| == content;
    OccursConcat(data, at, EncodeHeader(PXAR_FILENAME, |name| + 1), name + [0]);
  }

  lemma CursorStands(data: seq<byte>, dir: A.Directory, index: nat) returns (at: nat)
    requires A.CursorAt(data, dir, index).Ok?
    ensures index < |dir.table| && at + dir.table[index].offset == dir.goodbyeOffset
    ensures var c := A.CursorAt(data, dir, index).value;
            && Occurs(data, at, EncodeFilename(c.fileName)) && c.start == at + |EncodeFilename(c.fileName)|
            && c.end == at + dir.table[index].size
  {
    hide A.ReadFilename, EncodeFilename, Occurs;
    at := dir.goodbyeOffset - dir.table[index].offset;
    var (name, next) := A.ReadFilename(data, at).value;
    FilenameStands(data, at, name, next);
  }

  lemma {:induction false} FoundStands(data: seq<byte>, dir: A.Directory, name: seq<byte>, hash: nat, first: nat, dup: nat)
    returns (index: nat, at: nat)
    requires A.FindNamed(data, dir, name, hash, first, dup).Ok? && A.FindNamed(data, dir, name, hash, first, dup).value.Some?
    ensures index < |dir.table| && dir.table[index].hash == hash && at + dir.table[index].offset == dir.goodbyeOffset
    ensures var c := A.FindNamed(data, dir, name, hash, first, dup).value.value;
            && Occurs(data, at, EncodeFilename(name)) && c.start == at + |EncodeFilename(name)|
            && c.end == at + dir.table[index].size && c.fileName == name
    decreases S.Reach(dir.table, first, hash) - dup
  {
    hide A.CursorAt, S.Search, S.Reach, EncodeFilename, Occurs;
    S.SearchReach(dir.table, first, dup, hash);
    index := S.Search(dir.table, first, dup, hash).value;
    S.SearchSound(dir.table, first, dup, hash);
    if A.CursorAt(data, dir, index).value.fileName == name {
      at := CursorStands(data, dir, index);
    } else {
      index, at := FoundStands(data, dir, name, hash, first, dup + 1);
    }
  }

  /** Whatever the bytes are: what a lookup finds is in a slot of the table that has the name's hash, and
      where that slot points the name, an entry header, the reported stat and the head of the reported
      kind stand one after the other. */
  lemma LookupStands(h: Hash, data: seq<byte>, dir: A.Directory, name: seq<byte>) returns (index: nat, at: nat)
    requires A.LookupComponent(h, data, dir, name).Ok? && A.LookupComponent(h, data, dir, name).value.Some?
    ensures index < |dir.table| && dir.table[index].hash == h(name)
    ensures at + dir.table[index].offset == dir.goodbyeOffset && Occurs(data, at, EncodeFilename(name))
    ensures var e := A.LookupComponent(h, data, dir, name).value.value;
            e.entryEnd == at + dir.table[index].size
            && EntryStands(data, at + |EncodeFilename(name)|, e.entry.stat, e.entry.kind)
  {
    hide A.FindNamed, A.DecodeEntry, S.Search, EntryStands, EncodeFilename, Occurs, PushPath;
    var first := S.Search(dir.table, 0, 0, h(name)).value;
    index, at := FoundStands(data, dir, name, h(name), first, 0);
    var c := A.FindNamed(data, dir, name, h(name), first, 0).value.value;
    var (stat, kind) := A.DecodeEntry(data, c.start, c.end).value;
    DecodedStands(data, c.start, c.end, stat, kind);
  }

  /** What has been found has contents exactly if it is a file, and they start behind a payload header of
      their size. */
  lemma FoundContents(h: Hash, data: seq<byte>, dir: A.Directory, name: seq<byte>)
    requires A.LookupComponent(h, data, dir, name).Ok? && A.LookupComponent(h, data, dir, name).value.Some?
    ensures var e := A.LookupComponent(h, data, dir, name).value.value;
            && (A.Contents(e).Ok? <==> e.entry.kind.File?)
            && (A.Contents(e).Ok? ==>
                  var c := A.Contents(e).value;
                  c.size == e.entry.kind.size && c.start >= HEADER_SIZE
                  && Occurs(data, c.start - HEADER_SIZE, EncodeHeader(PXAR_PAYLOAD, c.size)))
  {
    hide A.FindNamed, A.DecodeEntry, S.Search, EncodeHeader, Occurs, PushPath;
    var index, at := LookupStands(h, data, dir, name);
    var c := A.FindNamed(data, dir, name, h(name), S.Search(dir.table, 0, 0, h(name)).value, 0).value.value;
    DecodedOffset(data, c.start, c.end);
  }

  lemma DecodedOffset(data: seq<byte>, start: nat, end: nat)
    requires A.DecodeEntry(data, start, end).Ok?
    ensures var kind := A.DecodeEntry(data, start, end).value.1; kind.File? ==> kind.offset.Some?
  {
    hide HeaderAt, MetadataAt, ReadBytes;
  }

  /** An entry without an offset, as the sequential reader reports it, and anything but a file are refused. */
  lemma OnlyFilesHaveContents(e: A.FileEntry)
    ensures A.Contents(e).Ok? <==> e.entry.kind.File? && e.entry.kind.offset.Some?
  {
  }

  // ---------------------------------------------------------------- opening a directory

  lemma ItemAgain(buf: seq<byte>)
    requires |buf| == GOODBYE_ITEM_SIZE
    ensures ItemBytes(A.ParseItem(buf)) == buf
  {
    FromLittleEndianRoundTrip(buf[0..8]);
    FromLittleEndianRoundTrip(buf[8..16]);
    FromLittleEndianRoundTrip(buf[16..24]);
    hide LittleEndian, FromLittleEndian;
    CutAt(buf, 0, 8, 24);
    CutAt(buf, 8, 16, 24);
    assert buf[0..24] == buf;
  }

  lemma {:induction false} TableAgain(raw: seq<byte>, n: nat)
    requires |raw| == ItemsSize(n)
    ensures |A.ParseTable(raw)| == n && TableBytes(A.ParseTable(raw)) == raw
    decreases n
  {
    hide ItemBytes, A.ParseItem;
    if n > 0 {
      var first, rest := raw[..GOODBYE_ITEM_SIZE], raw[GOODBYE_ITEM_SIZE..];
      ItemAgain(first);
      TableAgain(rest, n - 1);
      var table := A.ParseTable(raw);
      assert table == [A.ParseItem(first)] + A.ParseTable(rest);
      assert table[1..] == A.ParseTable(rest);
      assert raw == first + rest;
    } else {
      assert raw == [];
    }
  }

  /** A tail with the marker closes the bytes up to `end`, and its size is a header, `n` items and itself. */
  ghost predicate Tailed(data: seq<byte>, end: nat, n: nat) {
    && GOODBYE_ITEM_SIZE <= end <= |data|
    && var tail := A.ParseItem(data[end - GOODBYE_ITEM_SIZE..end]);
       tail.hash == PXAR_GOODBYE_TAIL_MARKER && tail.size == 16 + 24 * (n + 1) && tail.size <= end
  }

  /** Whatever the bytes are: a directory opens exactly at the end of such a tail. */
  lemma OpensExactly(data: seq<byte>, end: nat, path: seq<byte>)
    ensures A.OpenAtEnd(data, end, path).Ok? <==> exists n: nat :: Tailed(data, end, n)
  {
    hide A.ParseItem, A.ParseTable;
    if A.OpenAtEnd(data, end, path).Ok? {
      var n := OpenedStands(data, end, path);
    }
    if n: nat :| Tailed(data, end, n) {
      A.WholeItemsOf(n + 1);
    }
  }

  /** What has been opened stands there: the table in front of the tail, item for item. */
  lemma OpenedStands(data: seq<byte>, end: nat, path: seq<byte>) returns (n: nat)
    requires A.OpenAtEnd(data, end, path).Ok?
    ensures Tailed(data, end, n)
    ensures var dir := A.OpenAtEnd(data, end, path).value;
            && dir.path == path && |dir.table| == n && dir.goodbyeOffset + 16 + 24 * (n + 1) == end
            && Occurs(data, dir.goodbyeOffset + 16, TableBytes(dir.table))
  {
    hide A.ParseItem, A.ParseTable, TableBytes;
    var tail := A.ParseItem(data[end - GOODBYE_ITEM_SIZE..end]);
    var size := tail.size - HEADER_SIZE;
    n := A.WholeItems(size) - 1;
    assert size == 24 * (n + 1);
    var raw := data[end - tail.size + HEADER_SIZE..end - tail.size + HEADER_SIZE + ItemsSize(n)];
    TableAgain(raw, n);
  }
}
