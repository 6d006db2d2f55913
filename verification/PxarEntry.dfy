/** What both readers report of a node. */
module PxarEntry {
  import opened Bytes
  import F = PxarFormat

  datatype EntryKind = Directory | File(size: nat, offset: Option<nat>) | Symlink(data: seq<byte>)

  datatype Entry = Entry(path: seq<byte>, stat: F.Stat, kind: EntryKind)
}
