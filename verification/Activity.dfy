/** Merging of activities: file events of the same kind that follow each other closely become one. */
module Activity {
  import opened Bytes

  datatype Json =
    | JNull | JBool(b: bool) | JNumber(n: int) | JString(s: string)
    | JArray(items: seq<Json>) | JObject(fields: map<string, Json>)
  {
    /** `Value::get` with a string. */
    function Get(key: string): Option<Json> {
      if JObject? && key in fields then Some(fields[key]) else None
    }
  }

  datatype ActivityEvent =
    | PowerStart | PowerStop | PowerRestart | PowerKill | ConsoleCommand
    | SftpLogin | SftpWrite | SftpRead | SftpCreate | SftpCreateDirectory | SftpRename | SftpDelete
    | FileUploaded | FileCompress | FileDecompress | FileCreateDirectory | FileWrite | FileCopy | FileDelete | FileRename
  {
    predicate IsSftpEvent() {
      SftpWrite? || SftpRead? || SftpCreate? || SftpCreateDirectory? || SftpRename? || SftpDelete?
    }
  }

  type Uuid = nat

  /** The timestamp is in nanoseconds. */
  datatype Activity = Activity(user: Option<Uuid>, event: ActivityEvent, metadata: Option<Json>,
                               ip: Option<string>, schedule: Option<Uuid>, timestamp: int)

  const NANOS: int := 1_000_000_000

  // ---------------------------------------------------------------- one activity

  function Field(a: Activity, name: string): Option<Json> {
    if a.metadata.Some? then a.metadata.value.Get(name) else None
  }

  /** `extract_files`. */
  function Files(a: Activity): seq<Json> {
    var files := Field(a, "files");
    if files.Some? && files.value.JArray? then files.value.items else []
  }

  /** `finalize_files`. */
  function Finalize(a: Activity, files: seq<Json>): Activity {
    if files != [] && Field(a, "files").Some?
    then a.(metadata := Some(JObject(a.metadata.value.fields["files" := JArray(files)])))
    else a
  }

  /** What activities are merged by, if they are. */
  datatype Key = Sftp(event: ActivityEvent, user: Option<Uuid>) | Upload(uploader: Option<Uuid>, directory: string)

  function KeyOf(a: Activity): Option<Key> {
    if Field(a, "files").None? then None
    else if a.event.IsSftpEvent() then Some(Sftp(a.event, a.user))
    else if a.event == FileUploaded && Field(a, "directory").Some? && Field(a, "directory").value.JString?
    then Some(Upload(a.user, Field(a, "directory").value.s))
    else None
  }

  // ---------------------------------------------------------------- the same by the fields

  predicate HasFiles(a: Activity) {
    a.metadata.Some? && a.metadata.value.JObject? && "files" in a.metadata.value.fields
  }

  predicate Uploaded(a: Activity) {
    a.event == FileUploaded && HasFiles(a) && "directory" in a.metadata.value.fields
    && a.metadata.value.fields["directory"].JString?
  }

  /** Activities that are merged at all. */
  predicate Mergeable(a: Activity) {
    || (a.event in {SftpWrite, SftpRead, SftpCreate, SftpCreateDirectory, SftpRename, SftpDelete} && HasFiles(a))
    || Uploaded(a)
  }

  /** The event and user of an SFTP activity, or the user and directory of an upload, are those of `k`. */
  predicate Matches(a: Activity, k: Key) {
    Mergeable(a) &&
    match k
    case Sftp(event, user) => a.event == event && event != FileUploaded && a.user == user
    case Upload(user, directory) =>
      a.event == FileUploaded && a.user == user && a.metadata.value.fields["directory"] == JString(directory)
  }

  lemma KeyIsFields(a: Activity, k: Key)
    ensures KeyOf(a) == Some(k) <==> Matches(a, k)
    ensures KeyOf(a) == None <==> !Mergeable(a)
  {
  }

  /** Two activities are merged by the same key exactly if they have the same event, by the same user,
      and for uploads into the same directory. */
  lemma SameKey(a: Activity, b: Activity)
    ensures KeyOf(a).Some? && KeyOf(a) == KeyOf(b)
       <==> && Mergeable(a) && Mergeable(b) && a.event == b.event && a.user == b.user
            && (a.event == FileUploaded ==> Field(a, "directory") == Field(b, "directory"))
  {
    if KeyOf(a).Some? { KeyIsFields(b, KeyOf(a).value); }
  }

  /** The file entries of the activities that match `k`, in order. */
  function FilesOf(list: seq<Activity>, k: Key): seq<Json> {
    if list == [] then []
    else
      var last := list[|list| - 1];
      FilesOf(list[..|list| - 1], k)
      + if Matches(last, k) && last.metadata.value.fields["files"].JArray? then last.metadata.value.fields["files"].items
        else []
  }

  /** The activities that are left as they are. */
  function Others(list: seq<Activity>): seq<Activity> {
    if list == [] then []
    else Others(list[..|list| - 1]) + if Mergeable(list[|list| - 1]) then [] else [list[|list| - 1]]
  }

  lemma FilesOfLast(list: seq<Activity>, k: Key)
    requires list != []
    ensures var front, last := list[..|list| - 1], list[|list| - 1];
            FilesOf(list, k) == FilesOf(front, k) + if Matches(last, k) then Files(last) else []
  {
  }

  lemma NoFiles(k: Key)
    ensures FilesOf([], k) == AllFiles(Of([], Some(k))) == []
  {
  }

  lemma {:induction false} FilesOfKey(list: seq<Activity>, k: Key)
    ensures FilesOf(list, k) == AllFiles(Of(list, Some(k)))
  {
    hide *;
    NoFiles(k);
    if list != [] {
      var front, last := list[..|list| - 1], list[|list| - 1];
      FilesOfKey(front, k);
      FilesOfLast(list, k);
      KeyIsFields(last, k);
      AllFilesAppend(Of(front, Some(k)), last);
      assert list == front + [last];
      OfAppend(front, last, Some(k));
      assert AllFiles(Of(front, Some(k))) + [] == AllFiles(Of(front, Some(k)));
    }
  }

  lemma AllFilesAppend(list: seq<Activity>, last: Activity)
    ensures AllFiles(list + [last]) == AllFiles(list) + Files(last)
  {
    assert (list + [last])[..|list|] == list;
  }

  lemma {:induction false} OthersHaveNoKey(list: seq<Activity>)
    ensures Others(list) == Of(list, None)
  {
    if list != [] {
      OthersHaveNoKey(list[..|list| - 1]);
      KeyIsFields(list[|list| - 1], Upload(None, ""));
    }
  }

  /** `num_seconds`, which drops the fraction. */
  function NumSeconds(nanos: int): int {
    if nanos >= 0 then nanos / NANOS else -(-nanos / NANOS)
  }

  function Abs(x: int): nat {
    if x < 0 then -x else x
  }

  predicate Near(a: Activity, base: Activity) {
    Abs(NumSeconds(a.timestamp - base.timestamp)) <= 60
  }

  /** The window is not 60 seconds but anything under 61. */
  lemma NearIsUnder61(a: Activity, base: Activity)
    ensures Near(a, base) <==> -61_000_000_000 < a.timestamp - base.timestamp < 61_000_000_000
  {
  }

  /** Two activities 60.5 seconds apart are merged. */
  lemma MergedBeyondAMinute() returns (a: Activity, b: Activity)
    ensures b.timestamp - a.timestamp == 60 * NANOS + NANOS / 2
    ensures KeyOf(a) == KeyOf(b) == Some(Sftp(SftpWrite, None)) && |MergeKey([a, b])| == 1
  {
    var metadata := Some(JObject(map["files" := JArray([JNull])]));
    a := Activity(None, SftpWrite, metadata, None, None, 0);
    b := Activity(None, SftpWrite, metadata, None, None, 60 * NANOS + NANOS / 2);
    assert [a, b][..1] == [a] && [a][..0] == [];
    assert Fold([a]) == Merging([], Some(Group(a, Files(a))));
    assert Fold([a, b]) == Absorb(Fold([a]), b);
  }

  // ---------------------------------------------------------------- the activities of one key

  /** The group that is open: its first activity, and the files of all of them. */
  datatype Group = Group(base: Activity, files: seq<Json>)

  datatype Merging = Merging(closed: seq<Activity>, open: Option<Group>)

  function Absorb(m: Merging, a: Activity): Merging {
    match m.open
    case None => Merging(m.closed, Some(Group(a, Files(a))))
    case Some(g) =>
      if Near(a, g.base) then Merging(m.closed, Some(Group(g.base, g.files + Files(a))))
      else Merging(m.closed + [Finalize(g.base, g.files)], Some(Group(a, Files(a))))
  }

  function Fold(activities: seq<Activity>): Merging {
    if activities == [] then Merging([], None)
    else Absorb(Fold(activities[..|activities| - 1]), activities[|activities| - 1])
  }

  function Closed(m: Merging): seq<Activity> {
    m.closed + if m.open.Some? then [Finalize(m.open.value.base, m.open.value.files)] else []
  }

  /** What the activities of one key become. */
  function MergeKey(activities: seq<Activity>): seq<Activity> {
    Closed(Fold(activities))
  }

  /** The activities of `list` with key `k`, or with none. */
  function Of(list: seq<Activity>, k: Option<Key>): seq<Activity> {
    if list == [] then []
    else Of(list[..|list| - 1], k) + if KeyOf(list[|list| - 1]) == k then [list[|list| - 1]] else []
  }

  function AllFiles(list: seq<Activity>): seq<Json> {
    if list == [] then [] else AllFiles(list[..|list| - 1]) + Files(list[|list| - 1])
  }

  lemma {:induction false} OfConcat(a: seq<Activity>, b: seq<Activity>, k: Option<Key>)
    ensures Of(a + b, k) == Of(a, k) + Of(b, k)
  {
    if b == [] {
      assert a + b == a;
    } else {
      var last := if KeyOf(b[|b| - 1]) == k then [b[|b| - 1]] else [];
      OfConcat(a, b[..|b| - 1], k);
      assert (a + b)[..|a + b| - 1] == a + b[..|b| - 1];
      ConcatIsAssociative(Of(a, k), Of(b[..|b| - 1], k), last);
    }
  }

  lemma OfAppend(list: seq<Activity>, last: Activity, k: Option<Key>)
    ensures Of(list + [last], k) == if KeyOf(last) == k then Of(list, k) + [last] else Of(list, k)
  {
    assert (list + [last])[..|list|] == list;
  }

  lemma {:induction false} OfHasKey(list: seq<Activity>, k: Option<Key>)
    ensures forall a :: a in Of(list, k) ==> KeyOf(a) == k
  {
    if list != [] { OfHasKey(list[..|list| - 1], k); }
  }

  lemma {:induction false} AllFilesConcat(a: seq<Activity>, b: seq<Activity>)
    ensures AllFiles(a + b) == AllFiles(a) + AllFiles(b)
  {
    if b == [] {
      assert a + b == a;
    } else {
      AllFilesConcat(a, b[..|b| - 1]);
      assert (a + b)[..|a + b| - 1] == a + b[..|b| - 1];
      ConcatIsAssociative(AllFiles(a), AllFiles(b[..|b| - 1]), Files(b[|b| - 1]));
    }
  }

  lemma FinalizedKeepsKey(a: Activity, files: seq<Json>)
    ensures KeyOf(Finalize(a, files)) == KeyOf(a)
  {
  }

  /** A group, once finalized, has the files of all its members. */
  lemma FinalizedFiles(a: Activity, files: seq<Json>)
    requires KeyOf(a).Some? && Files(a) <= files
    ensures Files(Finalize(a, files)) == files
  {
  }

  /** Nothing but the `files` field of a base is touched. */
  lemma FinalizedKeepsBase(a: Activity, files: seq<Json>)
    ensures var f := Finalize(a, files);
            && f.user == a.user && f.event == a.event && f.ip == a.ip
            && f.schedule == a.schedule && f.timestamp == a.timestamp
    ensures forall name :: name != "files" ==> Field(Finalize(a, files), name) == Field(a, name)
    ensures !HasFiles(a) || files == [] ==> Finalize(a, files).metadata == a.metadata
    ensures HasFiles(a) && files != [] ==>
              Finalize(a, files).metadata == Some(JObject(a.metadata.value.fields["files" := JArray(files)]))
  {
  }

  // ---------------------------------------------------------------- what the merge of one key means

  /** `groups` cuts `list` into stretches, each within the window of its first activity, and each
      started by an activity outside the window of the one before. */
  ghost predicate IsGrouping(list: seq<Activity>, groups: seq<seq<Activity>>) {
    && Concat(groups) == list
    && (forall i :: 0 <= i < |groups| ==> groups[i] != [] && forall a :: a in groups[i] ==> Near(a, groups[i][0]))
    && (forall i, j :: 0 <= i && j == i + 1 < |groups| ==> !Near(groups[j][0], groups[i][0]))
  }

  function Merged(group: seq<Activity>): Activity
    requires group != []
  {
    Finalize(group[0], AllFiles(group))
  }

  /** The merge so far, in terms of the groups so far. */
  ghost predicate Describes(groups: seq<seq<Activity>>, m: Merging) {
    if groups == [] then m == Merging([], None)
    else
      var n := |groups| - 1;
      && |m.closed| == n && groups[n] != []
      && (forall i :: 0 <= i < n ==> groups[i] != [] && m.closed[i] == Merged(groups[i]))
      && m.open == Some(Group(groups[n][0], AllFiles(groups[n])))
  }

  lemma {:induction false} FoldIsGrouping(list: seq<Activity>) returns (groups: seq<seq<Activity>>)
    ensures IsGrouping(list, groups) && Describes(groups, Fold(list))
  {
    groups := [];
    if list != [] {
      var front, a := list[..|list| - 1], list[|list| - 1];
      var before := FoldIsGrouping(front);
      assert list == front + [a];
      groups := GroupingStep(front, before, Fold(front), a);
    }
  }

  lemma GroupingStep(list: seq<Activity>, before: seq<seq<Activity>>, m: Merging, a: Activity)
    returns (groups: seq<seq<Activity>>)
    requires IsGrouping(list, before) && Describes(before, m)
    ensures IsGrouping(list + [a], groups) && Describes(groups, Absorb(m, a))
  {
    hide Near, Finalize, IsGrouping, Concat, AllFiles;
    if before != [] && Near(a, before[|before| - 1][0]) {
      var n := |before| - 1;
      groups := before[..n] + [before[n] + [a]];
      GroupGrows(list, before, a);
      AllFilesConcat(before[n], [a]);
    } else {
      groups := before + [[a]];
      GroupStarts(list, before, a);
    }
    OneFile(a);
  }

  lemma GroupGrows(list: seq<Activity>, groups: seq<seq<Activity>>, a: Activity)
    requires IsGrouping(list, groups) && groups != [] && Near(a, groups[|groups| - 1][0])
    ensures var n := |groups| - 1; IsGrouping(list + [a], groups[..n] + [groups[n] + [a]])
  {
    hide Near, Concat;
    JoinLast(groups, [a]);
  }

  lemma GroupStarts(list: seq<Activity>, groups: seq<seq<Activity>>, a: Activity)
    requires IsGrouping(list, groups) && (groups != [] ==> !Near(a, groups[|groups| - 1][0]))
    ensures IsGrouping(list + [a], groups + [[a]])
  {
    NearItself(a);
    hide Near;
    ConcatAppend(groups, [a]);
  }

  /** Merging the activities of one key is cutting them into such stretches, one activity for each. */
  lemma MergeIsGrouping(list: seq<Activity>) returns (groups: seq<seq<Activity>>)
    ensures IsGrouping(list, groups) && |MergeKey(list)| == |groups|
    ensures forall i :: 0 <= i < |groups| ==> MergeKey(list)[i] == Merged(groups[i])
  {
    groups := FoldIsGrouping(list);
  }

  /** The activity made of a group is its first one with the file entries of all of them. */
  lemma MergedIsFirst(group: seq<Activity>)
    requires group != [] && Mergeable(group[0])
    ensures var (m, a) := (Merged(group), group[0]);
            && m.user == a.user && m.event == a.event && m.ip == a.ip && m.schedule == a.schedule
            && m.timestamp == a.timestamp && Mergeable(m) && Files(m) == AllFiles(group)
            && (forall name :: name != "files" ==> Field(m, name) == Field(a, name))
  {
    hide Finalize, AllFiles, Files;
    FinalizedKeepsBase(group[0], AllFiles(group));
    KeyIsFields(group[0], Upload(None, ""));
    FinalizedKeepsKey(group[0], AllFiles(group));
    KeyIsFields(Merged(group), Upload(None, ""));
    FirstFiles(group);
    FinalizedFiles(group[0], AllFiles(group));
  }

  lemma {:induction false} FirstFiles(group: seq<Activity>)
    requires group != []
    ensures Files(group[0]) <= AllFiles(group)
  {
    hide Files;
    assert AllFiles(group) == AllFiles(group[..|group| - 1]) + Files(group[|group| - 1]);
    if |group| > 1 { FirstFiles(group[..|group| - 1]); }
  }

  lemma NearItself(a: Activity)
    ensures Near(a, a)
  {
  }

  lemma JoinLast(groups: seq<seq<Activity>>, more: seq<Activity>)
    requires groups != []
    ensures var n := |groups| - 1; Concat(groups[..n] + [groups[n] + more]) == Concat(groups) + more
  {
    hide *;
    var n := |groups| - 1;
    assert groups == groups[..n] + [groups[n]];
    ConcatAppend(groups[..n], groups[n] + more);
    ConcatAppend(groups[..n], groups[n]);
    ConcatIsAssociative(Concat(groups[..n]), groups[n], more);
  }

  /** A `files` value that is no array survives at the head of a group exactly if no member has an entry. */
  lemma NonArrayFiles(group: seq<Activity>)
    requires group != [] && Field(group[0], "files").Some? && !Field(group[0], "files").value.JArray?
    ensures Field(Merged(group), "files") == Field(group[0], "files") <==> AllFiles(group) == []
    ensures AllFiles(group) != [] ==> Field(Merged(group), "files") == Some(JArray(AllFiles(group)))
  {
  }

  /** Such a value, followed a second later by an activity with one entry, is gone after the merge. */
  lemma NonArrayIsLost() returns (a: Activity, b: Activity)
    ensures KeyOf(a) == KeyOf(b) == Some(Sftp(SftpWrite, None))
    ensures Field(a, "files") == Some(JString("x")) && Files(b) == [JNull]
    ensures |MergeKey([a, b])| == 1 && Field(MergeKey([a, b])[0], "files") == Some(JArray([JNull]))
  {
    a := Activity(None, SftpWrite, Some(JObject(map["files" := JString("x")])), None, None, 0);
    b := Activity(None, SftpWrite, Some(JObject(map["files" := JArray([JNull])])), None, None, NANOS);
    assert [a, b][..1] == [a] && [a][..0] == [];
    assert Fold([a]) == Merging([], Some(Group(a, Files(a))));
    assert Files(a) + Files(b) == [JNull];
    assert Fold([a, b]) == Merging([], Some(Group(a, [JNull])));
    assert MergeKey([a, b]) == [Finalize(a, [JNull])];
  }

  ghost predicate OpenOk(m: Merging, k: Key) {
    m.open.Some? ==> KeyOf(m.open.value.base) == Some(k) && Files(m.open.value.base) <= m.open.value.files
  }

  /** No file entry of a key is lost, added or moved. */
  lemma {:induction false} MergeConserves(list: seq<Activity>, k: Key)
    requires forall a :: a in list ==> KeyOf(a) == Some(k)
    ensures AllFiles(MergeKey(list)) == AllFiles(list) && OpenOk(Fold(list), k)
  {
    if list != [] {
      var front, a := list[..|list| - 1], list[|list| - 1];
      MergeConserves(front, k);
      AbsorbConserves(Fold(front), a, k);
    }
  }

  lemma AbsorbConserves(m: Merging, a: Activity, k: Key)
    requires OpenOk(m, k) && KeyOf(a) == Some(k)
    ensures OpenOk(Absorb(m, a), k) && AllFiles(Closed(Absorb(m, a))) == AllFiles(Closed(m)) + Files(a)
  {
    hide Near, Finalize, KeyOf, Files;
    ClosedFiles(m);
    ClosedFiles(Absorb(m, a));
    if m.open.Some? && !Near(a, m.open.value.base) {
      assert Absorb(m, a).closed == Closed(m);
    }
  }

  lemma OneFile(a: Activity)
    ensures AllFiles([a]) == Files(a)
  {
    assert [a][..0] == [];
  }

  lemma ClosedFiles(m: Merging)
    requires m.open.Some? ==> KeyOf(m.open.value.base).Some? && Files(m.open.value.base) <= m.open.value.files
    ensures AllFiles(Closed(m)) == AllFiles(m.closed) + if m.open.Some? then m.open.value.files else []
  {
    if m.open.Some? {
      var last := Finalize(m.open.value.base, m.open.value.files);
      FinalizedFiles(m.open.value.base, m.open.value.files);
      AllFilesConcat(m.closed, [last]);
      OneFile(last);
    } else {
      assert Closed(m) == m.closed;
    }
  }

  lemma {:induction false} MergeKeepsKey(list: seq<Activity>, k: Option<Key>)
    requires forall a :: a in list ==> KeyOf(a) == k
    ensures forall a :: a in Fold(list).closed ==> KeyOf(a) == k
    ensures Fold(list).open.Some? ==> KeyOf(Fold(list).open.value.base) == k
  {
    if list != [] {
      var front := list[..|list| - 1];
      MergeKeepsKey(front, k);
      var m := Fold(front);
      if m.open.Some? { FinalizedKeepsKey(m.open.value.base, m.open.value.files); }
    }
  }

  // ---------------------------------------------------------------- merge_activities

  /** The open group of a key, in one of the two maps. */
  function OpenGroup(sftp: map<Key, Group>, uploads: map<Key, Group>, k: Key): Option<Group> {
    var groups := if k.Sftp? then sftp else uploads;
    if k in groups then Some(groups[k]) else None
  }

  /** The out list and the open groups stand for the merge of `list`, key by key. */
  ghost predicate Stands(list: seq<Activity>, merged: seq<Activity>, sftp: map<Key, Group>, uploads: map<Key, Group>) {
    && (forall k :: k in sftp ==> k.Sftp?)
    && (forall k :: k in uploads ==> k.Upload?)
    && Of(merged, None) == Of(list, None)
    && forall k :: Merging(Of(merged, Some(k)), OpenGroup(sftp, uploads, k)) == Fold(Of(list, Some(k)))
  }

  /** What a merge must give: for every key the merge of its activities, and the others as they are. */
  ghost predicate IsMerge(list: seq<Activity>, merged: seq<Activity>) {
    Of(merged, None) == Of(list, None) && forall k :: Of(merged, Some(k)) == MergeKey(Of(list, Some(k)))
  }

  /** The step both maps take for an activity of theirs. */
  method Take(groups: map<Key, Group>, key: Key, activity: Activity, merged: seq<Activity>)
    returns (groups': map<Key, Group>, merged': seq<Activity>)
    requires KeyOf(activity) == Some(key)
    ensures var open := if key in groups then Some(groups[key]) else None;
            var m := Absorb(Merging([], open), activity);
            merged' == merged + m.closed && m.open.Some? && groups' == groups[key := m.open.value]
  {
    if key in groups {
      var existing := groups[key];
      var dt := Abs(NumSeconds(activity.timestamp - existing.base.timestamp));
      if dt <= 60 {
        groups' := groups[key := Group(existing.base, existing.files + Files(activity))];
        merged' := merged;
        assert merged + [] == merged;
      } else {
        merged' := merged + [Finalize(existing.base, existing.files)];
        groups' := (groups - {key})[key := Group(activity, Files(activity))];
      }
    } else {
      groups' := groups[key := Group(activity, Files(activity))];
      merged' := merged;
      assert merged + [] == merged;
    }
  }

  method MergeActivities(activities: seq<Activity>) returns (merged: seq<Activity>)
    ensures IsMerge(activities, merged)
    ensures forall k :: FilesOf(merged, k) == FilesOf(activities, k)
    ensures Others(merged) == Others(activities)
  {
    hide Stands, IsMerge, FilesOf, Others;
    merged := [];
    var sftpEvents: map<Key, Group> := map[];
    var uploadEvents: map<Key, Group> := map[];
    StandsEmpty();
    for i := 0 to |activities|
      invariant Stands(activities[..i], merged, sftpEvents, uploadEvents)
    {
      var activity := activities[i];
      assert activities[..i + 1] == activities[..i] + [activity];
      ghost var before := merged;
      var key := KeyOf(activity);
      if key.Some? && key.value.Sftp? {
        StandsTakes(activities[..i], merged, sftpEvents, uploadEvents, activity, key.value);
        sftpEvents, merged := Take(sftpEvents, key.value, activity, merged);
      } else if key.Some? {
        StandsTakes(activities[..i], merged, sftpEvents, uploadEvents, activity, key.value);
        uploadEvents, merged := Take(uploadEvents, key.value, activity, merged);
      } else {
        StandsPasses(activities[..i], merged, sftpEvents, uploadEvents, activity);
        merged := merged + [activity];
      }
    }
    assert activities[..|activities|] == activities;
    merged := Drain(activities, merged, sftpEvents, uploadEvents);
    forall k ensures FilesOf(merged, k) == FilesOf(activities, k) && Others(merged) == Others(activities) {
      IsMergeConserves(activities, merged, k);
    }
    IsMergeConserves(activities, merged, Upload(None, ""));
  }

  lemma StandsEmpty()
    ensures Stands([], [], map[], map[])
  {
  }

  lemma StandsPasses(list: seq<Activity>, merged: seq<Activity>, sftp: map<Key, Group>, uploads: map<Key, Group>,
                     a: Activity)
    requires Stands(list, merged, sftp, uploads) && KeyOf(a).None?
    ensures Stands(list + [a], merged + [a], sftp, uploads)
  {
    forall k: Option<Key> ensures Of(list + [a], k) == (if k == None then Of(list, k) + [a] else Of(list, k))
                                  && Of(merged + [a], k) == (if k == None then Of(merged, k) + [a] else Of(merged, k)) {
      OfAppend(list, a, k);
      OfAppend(merged, a, k);
    }
    hide Of, KeyOf;
  }

  /** An activity with a key only changes what stands for that key. */
  lemma StandsTakes(list: seq<Activity>, merged: seq<Activity>, sftp: map<Key, Group>, uploads: map<Key, Group>,
                    a: Activity, key: Key)
    requires Stands(list, merged, sftp, uploads) && KeyOf(a) == Some(key)
    ensures var m := Absorb(Merging([], OpenGroup(sftp, uploads, key)), a);
            m.open.Some? &&
            if key.Sftp? then Stands(list + [a], merged + m.closed, sftp[key := m.open.value], uploads)
            else Stands(list + [a], merged + m.closed, sftp, uploads[key := m.open.value])
  {
    hide Near, Finalize, Fold, Absorb, Of, KeyOf, OpenGroup;
    var open := OpenGroup(sftp, uploads, key);
    var m := Absorb(Merging([], open), a);
    AbsorbFrame([], open, a);
    ClosedHasKey(list, merged, sftp, uploads, a, key);
    var sftp' := if key.Sftp? then sftp[key := m.open.value] else sftp;
    var uploads' := if key.Sftp? then uploads else uploads[key := m.open.value];
    OfAppend(list, a, None);
    OfMore(merged, m.closed, None, key);
    forall k ensures Merging(Of(merged + m.closed, Some(k)), OpenGroup(sftp', uploads', k)) == Fold(Of(list + [a], Some(k))) {
      StandsFor(list, merged, sftp, uploads, k);
      OpenedGroup(sftp, uploads, key, m.open.value, k);
      TakesForKey(list, merged, OpenGroup(sftp, uploads, k), a, m.closed, key, k);
    }
  }

  lemma StandsFor(list: seq<Activity>, merged: seq<Activity>, sftp: map<Key, Group>, uploads: map<Key, Group>, k: Key)
    requires Stands(list, merged, sftp, uploads)
    ensures Merging(Of(merged, Some(k)), OpenGroup(sftp, uploads, k)) == Fold(Of(list, Some(k)))
  {
    hide Of, Fold, OpenGroup;
  }

  lemma OpenedGroup(sftp: map<Key, Group>, uploads: map<Key, Group>, key: Key, g: Group, k: Key)
    ensures OpenGroup(if key.Sftp? then sftp[key := g] else sftp, if key.Sftp? then uploads else uploads[key := g], k)
         == if k == key then Some(g) else OpenGroup(sftp, uploads, k)
  {
  }

  lemma TakesForKey(list: seq<Activity>, merged: seq<Activity>, open: Option<Group>,
                    a: Activity, closed: seq<Activity>, key: Key, k: Key)
    requires Merging(Of(merged, Some(k)), open) == Fold(Of(list, Some(k)))
    requires KeyOf(a) == Some(key) && |closed| <= 1 && (closed != [] ==> KeyOf(closed[0]) == Some(key))
    requires k == key ==> closed == Absorb(Merging([], open), a).closed
    ensures Merging(Of(merged + closed, Some(k)), if k == key then Absorb(Merging([], open), a).open else open)
         == Fold(Of(list + [a], Some(k)))
  {
    hide Of, KeyOf, Fold, Absorb;
    OfAppend(list, a, Some(k));
    OfMore(merged, closed, Some(k), key);
    if k == key {
      FoldAppend(Of(list, Some(key)), a);
      AbsorbFrame(Of(merged, Some(key)), open, a);
    }
  }

  lemma FoldAppend(list: seq<Activity>, a: Activity)
    ensures Fold(list + [a]) == Absorb(Fold(list), a)
  {
    assert (list + [a])[..|list|] == list;
  }

  /** Adding at most one activity, of key `key`. */
  lemma OfMore(list: seq<Activity>, more: seq<Activity>, k: Option<Key>, key: Key)
    requires |more| <= 1 && (more != [] ==> KeyOf(more[0]) == Some(key))
    ensures Of(list + more, k) == if k == Some(key) then Of(list, k) + more else Of(list, k)
  {
    if more == [] {
      assert list + more == list && Of(list, k) + more == Of(list, k);
    } else {
      assert more == [more[0]];
      OfAppend(list, more[0], k);
    }
  }

  lemma AbsorbFrame(closed: seq<Activity>, open: Option<Group>, a: Activity)
    ensures var m := Absorb(Merging([], open), a);
            Absorb(Merging(closed, open), a) == Merging(closed + m.closed, m.open) && |m.closed| <= 1 && m.open.Some?
  {
  }

  /** A group that is closed is of its key. */
  lemma ClosedHasKey(list: seq<Activity>, merged: seq<Activity>, sftp: map<Key, Group>, uploads: map<Key, Group>,
                     a: Activity, key: Key)
    requires Stands(list, merged, sftp, uploads)
    ensures var m := Absorb(Merging([], OpenGroup(sftp, uploads, key)), a);
            |m.closed| <= 1 && (m.closed != [] ==> KeyOf(m.closed[0]) == Some(key))
  {
    hide Near, Finalize;
    var open := OpenGroup(sftp, uploads, key);
    OfHasKey(list, Some(key));
    MergeKeepsKey(Of(list, Some(key)), Some(key));
    assert Merging(Of(merged, Some(key)), open) == Fold(Of(list, Some(key)));
    if open.Some? { FinalizedKeepsKey(open.value.base, open.value.files); }
  }

  /** The open groups are closed, the ones of one map and then of the other, in no particular order. */
  method Drain(ghost activities: seq<Activity>, out: seq<Activity>, sftpEvents: map<Key, Group>, uploadEvents: map<Key, Group>)
    returns (merged: seq<Activity>)
    requires Stands(activities, out, sftpEvents, uploadEvents)
    ensures IsMerge(activities, merged)
  {
    hide Stands, IsMerge, DrainInv;
    merged := out;
    var sftp, uploads := sftpEvents, uploadEvents;
    DrainStarts(activities, out, sftp, uploads);
    while sftp != map[]
      invariant DrainInv(activities, merged, sftp, uploads)
      decreases |sftp|
    {
      var key :| key in sftp;
      DrainStep(activities, merged, sftp, uploads, key);
      merged := merged + [Finalize(sftp[key].base, sftp[key].files)];
      sftp := sftp - {key};
    }
    while uploads != map[]
      invariant DrainInv(activities, merged, map[], uploads)
      decreases |uploads|
    {
      var key :| key in uploads;
      DrainStep(activities, merged, map[], uploads, key);
      merged := merged + [Finalize(uploads[key].base, uploads[key].files)];
      uploads := uploads - {key};
    }
    DrainEnds(activities, merged);
  }

  /** Each group stands in the map for its kind of key, under the key of its base. */
  ghost predicate Keyed(sftp: map<Key, Group>, uploads: map<Key, Group>) {
    && (forall k :: k in sftp ==> k.Sftp? && KeyOf(sftp[k].base) == Some(k))
    && (forall k :: k in uploads ==> k.Upload? && KeyOf(uploads[k].base) == Some(k))
  }

  /** The groups that are still open complete the merge. */
  ghost predicate DrainInv(list: seq<Activity>, merged: seq<Activity>, sftp: map<Key, Group>, uploads: map<Key, Group>) {
    && Keyed(sftp, uploads)
    && Of(merged, None) == Of(list, None)
    && forall k :: Closed(Merging(Of(merged, Some(k)), OpenGroup(sftp, uploads, k))) == MergeKey(Of(list, Some(k)))
  }

  lemma DrainStarts(list: seq<Activity>, merged: seq<Activity>, sftp: map<Key, Group>, uploads: map<Key, Group>)
    requires Stands(list, merged, sftp, uploads)
    ensures DrainInv(list, merged, sftp, uploads)
  {
    hide Of, KeyOf, Fold, Finalize;
    forall k ensures OpenGroup(sftp, uploads, k).Some? ==> KeyOf(OpenGroup(sftp, uploads, k).value.base) == Some(k) {
      OfHasKey(list, Some(k));
      MergeKeepsKey(Of(list, Some(k)), Some(k));
      assert Merging(Of(merged, Some(k)), OpenGroup(sftp, uploads, k)) == Fold(Of(list, Some(k)));
    }
    forall k ensures k in sftp ==> KeyOf(sftp[k].base) == Some(k) {
      if k in sftp { assert OpenGroup(sftp, uploads, k) == Some(sftp[k]); }
    }
    forall k ensures k in uploads ==> KeyOf(uploads[k].base) == Some(k) {
      if k in uploads { assert OpenGroup(sftp, uploads, k) == Some(uploads[k]); }
    }
  }

  lemma DrainStep(list: seq<Activity>, merged: seq<Activity>, sftp: map<Key, Group>, uploads: map<Key, Group>, key: Key)
    requires DrainInv(list, merged, sftp, uploads) && (key in sftp || key in uploads)
    ensures var g := if key in sftp then sftp[key] else uploads[key];
            var more := merged + [Finalize(g.base, g.files)];
            if key in sftp then DrainInv(list, more, sftp - {key}, uploads) else DrainInv(list, more, sftp, uploads - {key})
  {
    hide Of, KeyOf, MergeKey, Finalize, Keyed, OpenGroup, Closed;
    var g := if key in sftp then sftp[key] else uploads[key];
    var sftp', uploads' := if key in sftp then sftp - {key} else sftp, if key in sftp then uploads else uploads - {key};
    GroupTaken(sftp, uploads, key, key);
    FinalizedKeepsKey(g.base, g.files);
    OfAppend(merged, Finalize(g.base, g.files), None);
    forall k
      ensures Closed(Merging(Of(merged + [Finalize(g.base, g.files)], Some(k)), OpenGroup(sftp', uploads', k)))
           == MergeKey(Of(list, Some(k)))
    {
      GroupTaken(sftp, uploads, key, k);
      ClosedSame(merged, g, key, k, OpenGroup(sftp, uploads, k));
    }
  }

  /** Taking the group of `key` out changes nothing for other keys. */
  lemma GroupTaken(sftp: map<Key, Group>, uploads: map<Key, Group>, key: Key, k: Key)
    requires Keyed(sftp, uploads) && (key in sftp || key in uploads)
    ensures var g := if key in sftp then sftp[key] else uploads[key];
            var sftp', uploads' := if key in sftp then sftp - {key} else sftp, if key in sftp then uploads else uploads - {key};
            && Keyed(sftp', uploads') && KeyOf(g.base) == Some(key)
            && OpenGroup(sftp, uploads, key) == Some(g)
            && OpenGroup(sftp', uploads', k) == if k == key then None else OpenGroup(sftp, uploads, k)
  {
    hide KeyOf;
  }

  lemma ClosedSame(merged: seq<Activity>, g: Group, key: Key, k: Key, open: Option<Group>)
    requires KeyOf(g.base) == Some(key) && (k == key ==> open == Some(g))
    ensures Closed(Merging(Of(merged + [Finalize(g.base, g.files)], Some(k)), if k == key then None else open))
         == Closed(Merging(Of(merged, Some(k)), open))
  {
    FinalizedKeepsKey(g.base, g.files);
    OfAppend(merged, Finalize(g.base, g.files), Some(k));
    ClosedOnce(Of(merged, Some(k)), g);
  }

  lemma ClosedOnce(closed: seq<Activity>, g: Group)
    ensures Closed(Merging(closed + [Finalize(g.base, g.files)], None)) == Closed(Merging(closed, Some(g)))
  {
  }

  lemma DrainEnds(list: seq<Activity>, merged: seq<Activity>)
    requires DrainInv(list, merged, map[], map[])
    ensures IsMerge(list, merged)
  {
    hide Of, MergeKey;
    forall k ensures Of(merged, Some(k)) == MergeKey(Of(list, Some(k))) {
      assert Closed(Merging(Of(merged, Some(k)), OpenGroup(map[], map[], k))) == Of(merged, Some(k)) + [];
    }
  }

  // ---------------------------------------------------------------- conservation over whole runs

  /** A merge keeps, for each event and user, and for each user and upload directory, the sequence of
      file entries, and every activity that is not merged. */
  lemma IsMergeConserves(list: seq<Activity>, merged: seq<Activity>, k: Key)
    requires IsMerge(list, merged)
    ensures FilesOf(merged, k) == FilesOf(list, k) && Others(merged) == Others(list)
  {
    hide Of, MergeKey, FilesOf, Others;
    OfHasKey(list, Some(k));
    MergeConserves(Of(list, Some(k)), k);
    FilesOfKey(list, k);
    FilesOfKey(merged, k);
    OthersHaveNoKey(list);
    OthersHaveNoKey(merged);
  }

  lemma FilesOfConcat(a: seq<Activity>, b: seq<Activity>, k: Key)
    ensures FilesOf(a + b, k) == FilesOf(a, k) + FilesOf(b, k)
  {
    hide Of, AllFiles, FilesOf;
    FilesOfKey(a, k);
    FilesOfKey(b, k);
    FilesOfKey(a + b, k);
    OfConcat(a, b, Some(k));
    AllFilesConcat(Of(a, Some(k)), Of(b, Some(k)));
  }

  lemma OthersConcat(a: seq<Activity>, b: seq<Activity>)
    ensures Others(a + b) == Others(a) + Others(b)
  {
    OthersHaveNoKey(a);
    OthersHaveNoKey(b);
    OthersHaveNoKey(a + b);
    OfConcat(a, b, None);
  }

  /** The loop of `ActivityManager`: what is over from one round is merged again with the next batch. */
  class ActivitySender {
    var leftover: seq<Activity>
    ghost var received: seq<Activity>
    ghost var sent: seq<Activity>

    /** Nothing received is lost or repeated: it was sent, or is still here. */
    ghost predicate Valid()
      reads this
    {
      && Others(sent) + Others(leftover) == Others(received)
      && forall k :: FilesOf(sent, k) + FilesOf(leftover, k) == FilesOf(received, k)
    }

    constructor ()
      ensures Valid() && leftover == received == sent == []
    {
      leftover, received, sent := [], [], [];
    }

    /** One round with a batch from the channel; `more` is false when the channel is closed and all is sent. */
    method Round(drained: seq<Activity>, sendCount: nat) returns (toSend: seq<Activity>, more: bool)
      requires Valid()
      modifies this
      ensures Valid() && received == old(received) + drained && sent == old(sent) + toSend
      ensures |toSend| <= sendCount
      ensures more <==> drained != [] || old(leftover) != []
      ensures exists merged :: IsMerge(old(leftover) + drained, merged)
                               && toSend + leftover == merged && (leftover != [] ==> |toSend| == sendCount)
    {
      hide Of, FilesOf, Others, IsMerge;
      var batch := leftover + drained;
      more := !(drained == [] && batch == []);
      var merged := [];
      if more {
        merged := MergeActivities(batch);
      } else {
        MergeOfNothing();
      }
      var rest: seq<Activity> := [];
      toSend := merged;
      if |merged| > sendCount {
        toSend, rest := merged[..sendCount], merged[sendCount..];
      }
      assert toSend + rest == merged;
      Conserved(received, sent, leftover, drained, merged, toSend, rest);
      leftover := rest;
      received := received + drained;
      sent := sent + toSend;
    }
  }

  lemma MergeOfNothing()
    ensures IsMerge([], [])
  {
  }

  lemma Conserved(received: seq<Activity>, sent: seq<Activity>, leftover: seq<Activity>, drained: seq<Activity>,
                  merged: seq<Activity>, toSend: seq<Activity>, rest: seq<Activity>)
    requires IsMerge(leftover + drained, merged) && merged == toSend + rest
    requires Others(sent) + Others(leftover) == Others(received)
    requires forall k :: FilesOf(sent, k) + FilesOf(leftover, k) == FilesOf(received, k)
    ensures Others(sent + toSend) + Others(rest) == Others(received + drained)
    ensures forall k :: FilesOf(sent + toSend, k) + FilesOf(rest, k) == FilesOf(received + drained, k)
  {
    hide *;
    OthersConcat(leftover, drained);
    OthersConcat(toSend, rest);
    OthersConcat(sent, toSend);
    OthersConcat(received, drained);
    IsMergeConserves(leftover + drained, merged, Upload(None, ""));
    Regroup(Others(sent), Others(leftover), Others(drained), Others(toSend), Others(rest));
    forall k ensures FilesOf(sent + toSend, k) + FilesOf(rest, k) == FilesOf(received + drained, k) {
      IsMergeConserves(leftover + drained, merged, k);
      FilesOfConcat(leftover, drained, k);
      FilesOfConcat(toSend, rest, k);
      FilesOfConcat(sent, toSend, k);
      FilesOfConcat(received, drained, k);
      Regroup(FilesOf(sent, k), FilesOf(leftover, k), FilesOf(drained, k), FilesOf(toSend, k), FilesOf(rest, k));
    }
  }

  lemma Regroup<T>(sent: seq<T>, leftover: seq<T>, drained: seq<T>, toSend: seq<T>, rest: seq<T>)
    requires leftover + drained == toSend + rest
    ensures sent + toSend + rest == sent + leftover + drained
  {
    assert sent + toSend + rest == sent + (toSend + rest);
    assert sent + leftover + drained == sent + (leftover + drained);
  }
}
