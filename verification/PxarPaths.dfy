/** Looking paths up in any written tree: a path never leads to a wrong node, and every path of the tree
    is found exactly if no directory has a fork. */
module PxarPaths {
  import opened Bytes
  import opened Paths
  import opened PxarFormat
  import opened PxarAccessor
  import opened PxarLookup
  import E = PxarEntry

  /** In every directory the names differ. */
  ghost predicate DistinctBelow(kids: seq<Node>) {
    DistinctNames(kids) && forall k :: 0 <= k < |kids| && kids[k].Dir? ==> DistinctBelow(kids[k].kids)
  }

  // ---------------------------------------------------------------- never a wrong node

  /** One component: the child of that name, or nothing. */
  lemma ComponentIsSound(h: Hash, data: seq<byte>, dir: Directory, kids: seq<Node>, table: seq<nat>, body: nat, name: seq<byte>)
    returns (at: nat)
    requires Opened(h, data, dir, kids, table, body) && DistinctNames(kids)
    ensures var r := LookupComponent(h, data, dir, name);
            var k := KidNamed(kids, name);
            r == Ok(None)
            || (k.Some? && Occurs(data, at, Encode(h, kids[k.value])) && WellFormed(h, kids[k.value])
                && r == Ok(Some(EntryOf(h, kids[k.value], PushPath(dir.path, name), at))))
  {
    hide Opened, LookupComponent, DistinctNames, Occurs, Encode, EntryOf, WellFormed, PushPath;
    at := 0;
    match KidNamed(kids, name) {
      case None =>
        ComponentAbsent(h, data, dir, kids, table, body, name);
      case Some(k) =>
        OpenedFacts(h, data, dir, kids, table, body);
        WellFormedKid(h, kids, k);
        var j := SlotOf(table, k, |kids|);
        at := ComponentExact(h, data, dir, kids, table, body, j);
    }
  }

  lemma SlotOf(table: seq<nat>, k: nat, n: nat) returns (j: nat)
    requires IsPermutation(table, n) && k < n
    ensures j < |table| && table[j] == k
  {
    assert k in table;
    j :| 0 <= j < |table| && table[j] == k;
  }

  /** The answer that the written tree gives to `names`. */
  ghost predicate Answers(h: Hash, data: seq<byte>, r: Result<Option<FileEntry>>, resolution: Resolution, at: nat) {
    match resolution
    case Resolved(node, path) => Occurs(data, at, Encode(h, node)) && r == Ok(Some(EntryOf(h, node, path, at)))
    case Missing => r == Ok(None)
    case NotADirectory => r == Err(NOT_A_DIRECTORY)
  }

  /** Whatever collides, a path leads to the node it names, or to nothing, or to an error where it goes
      on below something that is not a directory. */
  lemma {:induction false} LookupIsSound(h: Hash, data: seq<byte>, dir: Directory, kids: seq<Node>, table: seq<nat>,
                                         body: nat, names: seq<seq<byte>>) returns (at: nat)
    requires Opened(h, data, dir, kids, table, body) && DistinctBelow(kids) && names != []
    ensures var r := LookupNames(h, data, dir, names);
            r == Ok(None) || Answers(h, data, r, Resolve(kids, names, dir.path), at)
    decreases |names|
  {
    hide Opened, Encode, Occurs, LookupComponent, DistinctNames, OpenAtEnd, WellFormed, PushPath;
    OpenedFacts(h, data, dir, kids, table, body);
    at := ComponentIsSound(h, data, dir, kids, table, body, names[0]);
    var k := KidNamed(kids, names[0]);
    var path := PushPath(dir.path, names[0]);
    if LookupComponent(h, data, dir, names[0]) != Ok(None) && |names| > 1 && kids[k.value].Dir? {
      var next := KidEnters(h, data, kids[k.value], path, at);
      at := LookupIsSound(h, data, next, kids[k.value].kids, kids[k.value].table, at + BodyOffset(kids[k.value]), names[1..]);
    }
  }

  // ---------------------------------------------------------------- every path

  /** Every path of the tree leads to something. */
  ghost predicate PathsFound(h: Hash, data: seq<byte>, dir: Directory, kids: seq<Node>) {
    forall names: seq<seq<byte>> :: names != [] && Resolve(kids, names, dir.path).Resolved? ==>
                                      LookupNames(h, data, dir, names).Ok? && LookupNames(h, data, dir, names).value.Some?
  }

  lemma {:induction false} OwnName(kids: seq<Node>, k: nat)
    requires DistinctNames(kids) && k < |kids|
    ensures KidNamed(kids, kids[k].name) == Some(k)
  {
  }

  /** A child that is found by its name. */
  lemma KidIsFound(h: Hash, data: seq<byte>, dir: Directory, kids: seq<Node>, table: seq<nat>, body: nat, k: nat)
    returns (at: nat)
    requires Opened(h, data, dir, kids, table, body) && DistinctNames(kids) && PathsFound(h, data, dir, kids) && k < |kids|
    ensures Occurs(data, at, Encode(h, kids[k])) && WellFormed(h, kids[k])
    ensures LookupComponent(h, data, dir, kids[k].name)
         == Ok(Some(EntryOf(h, kids[k], PushPath(dir.path, kids[k].name), at)))
  {
    hide Opened, LookupComponent, DistinctNames, Occurs, Encode, EntryOf, WellFormed, PushPath, KidNamed, EnterDirectory;
    var name := kids[k].name;
    OwnName(kids, k);
    at := ComponentIsSound(h, data, dir, kids, table, body, name);
    assert Resolve(kids, [name], dir.path).Resolved?;
    assert LookupNames(h, data, dir, [name]).Ok?;
  }

  /** Then the paths below a child directory are found in that directory. */
  lemma PathsFoundBelow(h: Hash, data: seq<byte>, dir: Directory, kids: seq<Node>, k: nat, entry: FileEntry, next: Directory)
    requires DistinctNames(kids) && PathsFound(h, data, dir, kids) && k < |kids| && kids[k].Dir?
    requires LookupComponent(h, data, dir, kids[k].name) == Ok(Some(entry)) && EnterDirectory(data, entry) == Ok(next)
    requires next.path == PushPath(dir.path, kids[k].name)
    ensures PathsFound(h, data, next, kids[k].kids)
  {
    hide LookupComponent, DistinctNames, EnterDirectory, PushPath, KidNamed;
    OwnName(kids, k);
    forall names: seq<seq<byte>> | names != [] && Resolve(kids[k].kids, names, next.path).Resolved?
      ensures LookupNames(h, data, next, names).Ok? && LookupNames(h, data, next, names).value.Some?
    {
      var longer := [kids[k].name] + names;
      assert longer[1..] == names && longer[0] == kids[k].name;
      assert Resolve(kids, longer, dir.path) == Resolve(kids[k].kids, names, next.path);
      assert LookupNames(h, data, dir, longer) == LookupNames(h, data, next, names);
    }
  }

  /** Every path of the tree is found exactly if no directory has a fork. */
  lemma {:induction false} EveryPathExactly(h: Hash, data: seq<byte>, dir: Directory, kids: seq<Node>, table: seq<nat>, body: nat)
    requires Opened(h, data, dir, kids, table, body) && DistinctBelow(kids)
    ensures PathsFound(h, data, dir, kids) <==> Navigable(h, kids, table)
    decreases kids
  {
    hide Opened, LookupComponent, LookupNames, Resolve, DistinctNames, NoForks, Occurs, Encode, WellFormed, PushPath, OpenAtEnd;
    if Navigable(h, kids, table) {
      forall names: seq<seq<byte>> | names != [] && Resolve(kids, names, dir.path).Resolved?
        ensures LookupNames(h, data, dir, names).Ok? && LookupNames(h, data, dir, names).value.Some?
      {
        var at := LookupResolves(h, data, dir, kids, table, body, names);
      }
    }
    if PathsFound(h, data, dir, kids) {
      forall k | 0 <= k < |kids| ensures FindsKid(h, data, dir, kids[k]) {
        var at := KidIsFound(h, data, dir, kids, table, body, k);
      }
      DirectoryExact(h, data, dir, kids, table, body);
      OpenedFacts(h, data, dir, kids, table, body);
      forall k | 0 <= k < |kids| && kids[k].Dir? ensures Navigable(h, kids[k].kids, kids[k].table) {
        var at := KidIsFound(h, data, dir, kids, table, body, k);
        var next := KidEnters(h, data, kids[k], PushPath(dir.path, kids[k].name), at);
        PathsFoundBelow(h, data, dir, kids, k, EntryOf(h, kids[k], PushPath(dir.path, kids[k].name), at), next);
        EveryPathExactly(h, data, next, kids[k].kids, kids[k].table, at + BodyOffset(kids[k]));
      }
    }
  }
}
