# Proofs about the archive stack and its helpers

This project models, in Dafny 4.11, the parts of the repository whose behaviour is hard to see from
one function at a time, and proves what they keep. `dafny verify dfyconfig.toml` checks all of it.

## What is modelled

**The pxar archive** (`pbs-client/src/pxar`). `PxarFormat` defines the bytes of a tree. `PxarEncoder`
is the streaming writer as a class; its invariant ties position, directory stack and goodbye items to
the tree written so far, so every sequence of calls ends in the encoding of the tree it describes.
Paths are lists of names, each behind a slash (`Paths`). `SearchTree` is the goodbye table: `bst_copy`
in place on an array, and the duplicate search.
`PxarDecoder` is the sequential reader, a state machine over the same bytes, and `PxarRoundTrip` proves
that it lists the written tree. `PxarAccessor` is the random-access reader, `PxarLookup` proves what it
finds, and `PxarPaths` when that is everything. `PxarAnyBytes` is about both readers on bytes that
nobody encoded: paths stay below the root, and what is reported stands there. `PxarLimits` drives the
encoder to archives that a reader refuses, or reads as another tree.

**The catalog** (`pbs-client/src/catalog.rs`). `Varint`, `CatalogFormat`, `CatalogWriter`,
`CatalogReader` and, for what they have to do with each other, `CatalogRoundTrip` and `CatalogLimits`.

**The chunk layer.** `ChunkUpload` is the upload protocol as a state machine whose steps are what the
producer, the compression threads and the consumer do between two points where another can run.
`ChunkIndex` parses the index and reassembles the archive, `ChunkReader` presents it as flat bytes
through a least-recently-used cache, `FileReader` polls a file out of it, and `ChunkRoundTrip` connects
the upload to the reads.

**Helpers of the daemon.** `LineBuffer`, `Tail` (both over `Lines`), `Activity`, `RateLimit`,
`HandleLimit` and `JwtUses` (interleaved atomic steps), `DedupPaths`.

Code that works by changing state is a class or a method with a loop here, and is proved equal to a
function or a predicate about which the lemmas are; the two protocols with threads, and the upload, are
state machines over runs.

## What came out

Some properties the code or its comments suggest hold only under a condition. Each is stated exactly by
the first members named, and the last ones are an input on which it fails.

- Looking up a name by hash loses a child exactly if, in the sorted items, one of its hash has neighbours
  of the same hash on both sides and goes to a slot with two children (`SearchTree.LostExactly`,
  `SearchTree.DuplicateSearchExact`; for whole paths `PxarPaths.EveryPathExactly`). It takes three
  children of one hash (`PxarLookup.ThirdCollisionIsLost`). A wrong node is never found
  (`PxarPaths.LookupIsSound`).
- The encoder writes names and symlink targets that the decoder refuses: above 255 and 4095 bytes
  (`PxarRoundTrip.ArchiveRoundTrip`; `PxarLimits.LongName`, `PxarLimits.LongTarget`).
- After the root is finished the encoder still accepts `create_directory` and a `finish` for it, and
  `add_file` and `add_symlink` write their bytes before they fail; all that stands behind the archive
  (`PxarEncoder.Encoder.Close`). The sequential reader never reads it (`PxarRoundTrip.StraysAreNotRead`);
  the other one takes a directory at the end for the root (`PxarLookup.LastDirectoryOpens`;
  `PxarLimits.AfterTheRoot`).
- Looking up a path below a file or a symlink is an error, not an absence, and the empty path, though it
  denotes the root, gives nothing (`PxarLookup.ArchiveLookup`; `PxarLimits.BelowAFile`).
- The catalog's entry limit is compared before devices, fifos and sockets too, although they are not
  listed (`CatalogRoundTrip.CatalogParses`; `CatalogLimits.FifoHitsTheLimit`).
- The merge window of activities is not 60 seconds but anything below 61, because the fraction is
  dropped (`Activity.NearIsUnder61`; `Activity.MergedBeyondAMinute`).
- A `files` value that is not an array counts for nothing, and is overwritten when its activity heads a
  group with file entries (`Activity.NonArrayFiles`; `Activity.NonArrayIsLost`).
- `PbsFileReader` panics if it is polled with less room than the read under way brings, or again after a
  failed read; a caller is safe exactly if nothing is under way, or what is has not failed and can bring
  no more than fits (`FileReader.SafeToPoll`; `FileReader.PanicsWithLessRoom`,
  `FileReader.PanicsAfterFailure`).
- An attempt to open a handle is refused exactly if the live guards and the undecided attempts are
  together as many as the limit, so also while no handle is live (`HandleLimit.RefusalIsExact`,
  `HandleLimit.RefusedWithHandlesFree`; `HandleLimit.RefusedWithNoneLive`).
- `tail` from the end and `tail` of a stream agree exactly if each of the last lines is kept whole
  (`Tail.BothWaysAgree`).
- The chunk reader does not need the chunks to be non-empty, and the windows of the limiter bound any
  interval, not only aligned ones.

## Assumptions

- SipHash is any function from names to 64-bit values, SHA-256 any function from chunks to digests. Where
  a result needs that chunks do not collide, it says so. Compression and checksums of blobs
  are left out: a download gives the chunk or an error.
- The chunker is any cutting of the stream. Readers give any non-empty part of what is asked for, or fail
  where that is said; clocks do not go back and sleeps are not short.
- Names and paths are byte strings, as on Unix.
- Archives and catalogs are shorter than 2^64 bytes. Offsets are unbounded below that; the sums the
  source checks for overflow are checked.
- Sorting is taken by its contract: some order by the key.

## Model

| member | source | states |
|---|---|---|
| SearchTree.BstCopy | pbs-client/src/pxar/format.rs:103-109 | For every number of items the recursion ends, no subtraction underflows and no index is out of range; read in order, the heap-shaped table holds exactly the sorted items |
| SearchTree.BstCopyInner | pbs-client/src/pxar/format.rs:111-124 | One call fills exactly the slots of its subtree, in order, from its stretch of the sorted items, and touches no other slot |
| SearchTree.SlotsOnce | pbs-client/src/pxar/format.rs:111-124 | The in-order listing of a heap-shaped subtree names every slot of the subtree once and nothing else |
| SearchTree.ShapeChildren | pbs-client/src/pxar/format.rs:115-123 | The invariant `2^e - 1 <= n < 2^(e+1)` and the complete shape pass to both recursive calls |
| SearchTree.RootFits | pbs-client/src/pxar/format.rs:103-109 | The first call meets the invariant for every n, with `e` the floor of the binary logarithm |
| SearchTree.CopyIsPermutation | pbs-client/src/pxar/format.rs:103-124 | Every destination slot has exactly one source item, and every source item one slot |
| SearchTree.ReadInOrderIsSearchTree | pbs-client/src/pxar/format.rs:103-124 | A table that is sorted when read in order is a search tree: everything below `2i+1` <= item i <= everything below `2i+2` |
| SearchTree.BstSearchBy | pbs-client/src/pxar/format.rs:126-146 | The loop with its recursion computes the recursive search; with skip 0 it looks at no more than floor(log2 n) + 1 items |
| SearchTree.SearchSound | pbs-client/src/pxar/format.rs:126-146 | On any table and for any skip, a result is an equal key inside the subtree that was searched |
| SearchTree.SearchExact | pbs-client/src/pxar/format.rs:126-146 | On a search tree a plain search from the root succeeds if and only if the hash is in the table |
| SearchTree.SearchReach | pbs-client/src/pxar/format.rs:138-142 | The skips that give a result are an initial stretch of the naturals, so the loop that counts up ends |
| SearchTree.SearchInjective | pbs-client/src/pxar/format.rs:138-142 | Different skips never give the same slot |
| SearchTree.OnePathFound | pbs-client/src/pxar/format.rs:138-142 | If the matches lie on one path from the root, every one of them is given by some skip |
| SearchTree.FoundOnePath | pbs-client/src/pxar/format.rs:138-142 | Conversely, if every match is given by some skip, any two matches lie on one path |
| SearchTree.DuplicateSearchExact | pbs-client/src/pxar/format.rs:126-146 | Counting the skip up from 0 gives all slots with the hash if and only if those slots lie on one path of the table |
| SearchTree.LostExactly | pbs-client/src/pxar/format.rs:103-146 | Seen before anything is written: all slots with a hash are found if and only if no item of that hash has, in the sorted items, neighbours of the same hash on both sides and a slot i with 2i+2 < n |
| SearchTree.Neighbours | pbs-client/src/pxar/format.rs:103-124 | The in-order neighbours of a slot with two children lie below it, one on either side |
| SearchTree.ForkAbove | pbs-client/src/pxar/format.rs:103-146 | Two slots of one hash that are not on one path have above them a slot of that hash whose two neighbours have it too |
| SearchTree.TwoAreAlwaysFound | pbs-client/src/pxar/format.rs:126-146 | A hash that occurs at most twice is always on one path, so both occurrences are found |
| SearchTree.ThirdDuplicateIsLost | pbs-client/src/pxar/format.rs:138-142 | With three equal hashes, one of them on either side of the top, the right one is given by no skip |
| SearchTree.SearchFromFirst | pbs-client/src/pxar/accessor.rs:131-145 | Searching from the first hit finds, for every skip, what searching from the root finds |
| Paths.PushedOnce | pbs-client/src/pxar/decoder.rs:197-209 | An absolute name replaces the path; any other one is added behind exactly one slash where there is something to separate |
| Paths.PushIsAssociative | pbs-client/src/pxar/decoder.rs:197-209 | Pushing two names one after the other is pushing the second onto the first and that onto the path |
| Paths.PushedIsSlashed | pbs-client/src/pxar/decoder.rs:197-209 | For proper names, pushing one more onto the path of some names gives the path of the longer list: every name behind one slash |
| Paths.SlashedIsInjective | pbs-client/src/pxar/format.rs:89-101 | Two different lists of proper names never give the same path |
| PxarFormat.ReadOccurring | pbs-client/src/pxar/accessor.rs:362-367 | Reading as many bytes as a string has, where it stands, gives the string |
| PxarFormat.HeaderOccurs | pbs-client/src/pxar/format.rs:34-40 | A header that was written reads back with its type and content size |
| PxarFormat.StatRoundTrip | pbs-client/src/pxar/accessor.rs:319-343 | The 40 bytes of a stat read back as the stat, negative times included |
| PxarFormat.StatOccurs | pbs-client/src/pxar/encoder.rs:170-180 | An entry header and stat that were written read back as that stat |
| PxarFormat.NamesRefused | pbs-client/src/pxar/format.rs:89-101 | A name is refused exactly if it is empty, has a byte 47 in it, or is `.` or `..` |
| PxarFormat.TypeOfDirectory | pbs-client/src/pxar/encoder.rs:25-48 | An entry is a directory exactly if the type bits of its mode, above the lowest twelve, are 0x4000 |
| PxarFormat.PushedPathExtends | pbs-client/src/pxar/format.rs:89-101 | A valid name pushed onto a path extends it, so cutting back to the old length restores it |
| PxarFormat.ItemsAppend | pbs-client/src/pxar/encoder.rs:149-161 | One more child adds one more item, at the end of the bytes so far and with the size of its encoding |
| PxarFormat.ItemPointsAtBlob | pbs-client/src/pxar/encoder.rs:149-161 | The item of child k points at exactly the bytes of child k |
| PxarFormat.ItemsShift | pbs-client/src/pxar/encoder.rs:237-251 | Stored as distances back from the goodbye header, items do not depend on where the directory stands |
| PxarFormat.NodeLayout | pbs-client/src/pxar/encoder.rs:74-111 | Where the parts of an encoded entry stand: name, stat, body |
| PxarFormat.DirLayout | pbs-client/src/pxar/encoder.rs:113-136 | Where the children, the goodbye header, the table and its tail stand, and that the first header inside a directory is a name or a goodbye |
| PxarFormat.ArchiveLayout | pbs-client/src/pxar/encoder.rs:25-48 | Where the parts of a whole archive stand, and how long it is |
| PxarEncoder.SortByHash | pbs-client/src/pxar/encoder.rs:230-231 | Some order of the items by hash; which one of several is left open |
| PxarEncoder.CopiedTree | pbs-client/src/pxar/encoder.rs:233-251 | What `bst_copy` leaves behind is an arrangement of all the items and a search tree by hash |
| PxarEncoder.SerializeTable | pbs-client/src/pxar/encoder.rs:257-262 | The table is written slot by slot |
| PxarEncoder.BuildGoodbyeTable | pbs-client/src/pxar/encoder.rs:225-271 | The out-of-range error is never taken, every item is kept, offsets become distances, the table is a search tree and the tail closes it |
| PxarEncoder.TableIsRelative | pbs-client/src/pxar/encoder.rs:225-271 | The table built from absolute offsets is the one the format defines by distances |
| PxarEncoder.AddKidOk | pbs-client/src/pxar/encoder.rs:149-161 | Recording a finished child keeps the items of the open directory in step with the bytes written |
| PxarEncoder.EntryWritten | pbs-client/src/pxar/encoder.rs:74-111 | Writing a whole entry keeps the invariant of the encoder: into the open directory, or as stray bytes if none is open |
| PxarEncoder.DirectoryOpened | pbs-client/src/pxar/encoder.rs:50-72 | Opening a directory keeps the invariant of the encoder |
| PxarEncoder.DirectoryFinished | pbs-client/src/pxar/encoder.rs:113-136 | Closing a directory keeps it: name, stat, children and goodbye table together are the encoding of one node of the parent |
| PxarEncoder.GoodbyeOfTop | pbs-client/src/pxar/encoder.rs:118-124 | The table built from the top of the stack is the goodbye section of the directory on top |
| PxarEncoder.Encoder.constructor | pbs-client/src/pxar/encoder.rs:25-48 | A new encoder has written the root entry and has the root open |
| PxarEncoder.Encoder.FromStd | pbs-client/src/pxar/encoder.rs:25-48 | Only a directory is accepted as the root |
| PxarEncoder.Encoder.CopyExact | pbs-client/src/pxar/encoder.rs:187-207 | Exactly the announced number of bytes is copied however the reader cuts them; a short reader is an error |
| PxarEncoder.Encoder.CreateDirectory | pbs-client/src/pxar/encoder.rs:50-72 | Succeeds exactly for a directory stat and a valid name, and opens that directory; otherwise nothing is written |
| PxarEncoder.Encoder.AddFile | pbs-client/src/pxar/encoder.rs:74-90 | Writes the encoding of the file with the first `size` bytes of its content and records it as the next child; a bad name writes nothing; after a reader that is too short exactly the torn entry has been written, and no child is recorded |
| PxarEncoder.Encoder.AddSymlink | pbs-client/src/pxar/encoder.rs:92-111 | Writes the encoding of the symlink and records it as the next child |
| PxarEncoder.Encoder.Finish | pbs-client/src/pxar/encoder.rs:113-136 | Closes the open directory with a good table and records it in its parent, or completes the archive; an error exactly if none is open |
| PxarEncoder.Encoder.Close | pbs-client/src/pxar/encoder.rs:138-147 | Succeeds exactly when no directory is open; then the output is the encoded archive, and after it whatever was written once the root was closed |
| PxarDecoder.Decoder.FromStd | pbs-client/src/pxar/decoder.rs:37-45 | A fresh decoder stands at the first byte |
| PxarDecoder.Decoder.SkipBytes | pbs-client/src/pxar/decoder.rs:244-257 | Skipping a buffer at a time moves exactly `len` bytes on, or fails at the end of the input |
| PxarDecoder.Decoder.ReadRootEntry | pbs-client/src/pxar/decoder.rs:90-112 | The first entry is the root directory, or an error |
| PxarDecoder.Decoder.ReadNamed | pbs-client/src/pxar/decoder.rs:114-174 | Name, entry header, stat and kind, with the header of a directory's first child kept pending |
| PxarDecoder.Decoder.ReadNameOf | pbs-client/src/pxar/decoder.rs:114-129 | The first half: a name within the limit, zero-terminated and valid, is pushed onto the path cut back to the open directory, or the error |
| PxarDecoder.Decoder.ReadNamedRest | pbs-client/src/pxar/decoder.rs:131-174 | The second half: entry header, stat and kind |
| PxarDecoder.Decoder.ReadEntryKind | pbs-client/src/pxar/decoder.rs:140-174 | The header after the stat decides the kind: payload, symlink, or the first header inside a directory |
| PxarDecoder.Decoder.CloseDirectory | pbs-client/src/pxar/decoder.rs:69-80 | A goodbye table is skipped and the enclosing path restored; after the root there is nothing more |
| PxarDecoder.Decoder.Next | pbs-client/src/pxar/decoder.rs:54-88 | The result of `next_do` as one function of the bytes and the old state, and, unless it is an error, the new state; what that function promises on any bytes is `PxarAnyBytes.EntryStep` and `NextStands` |
| PxarDecoder.Decoder.ReadContents | pbs-client/src/pxar/decoder.rs:263-281 | A read of a payload gives the next bytes of it, never past its end, and nothing only where there is nothing |
| PxarRoundTrip.EntryRead | pbs-client/src/pxar/decoder.rs:114-174 | At an encoded entry `next` gives its full path, stat and kind and leaves the decoder at its payload, its end or its first child; or fails, exactly if name or target is too long |
| PxarRoundTrip.GoodbyeRead | pbs-client/src/pxar/decoder.rs:69-80 | At a goodbye table decoding goes on behind it in the enclosing directory, or ends |
| PxarRoundTrip.NodeRoundTrip | pbs-client/src/pxar/decoder.rs:54-174 | Draining at an encoded node lists the node and everything below it in pre-order, then goes on behind it |
| PxarRoundTrip.KidsRoundTrip | pbs-client/src/pxar/decoder.rs:54-174 | The same for the children of a directory, one after another |
| PxarRoundTrip.DirectoryRoundTrip | pbs-client/src/pxar/decoder.rs:54-88 | The same for the root directory up to the last byte |
| PxarRoundTrip.ArchiveRoundTrip | pbs-client/src/pxar/decoder.rs:54-209 | Draining an encoded archive gives the root under `/` and every node in pre-order under `/` and its names, with stat, kind, payload and target, and stops at the last byte; it succeeds if and only if every name has at most 255 and every target at most 4095 bytes |
| PxarRoundTrip.PathsAreNames | pbs-client/src/pxar/decoder.rs:197-209 | The paths that come of pushing and truncating are the names of the directories above, each behind one slash |
| PxarAnyBytes.EntryStep | pbs-client/src/pxar/decoder.rs:54-209 | On any bytes: an entry is a child, under one valid name, of one of the directories that are open, and opens itself exactly if it is a directory |
| PxarAnyBytes.ListingIsTree | pbs-client/src/pxar/decoder.rs:37-209 | On any bytes: a drained listing begins with the root, and every other entry stands under one valid name in a directory listed before it; no path has an empty component, `.` or `..` |
| PxarAnyBytes.NameStands | pbs-client/src/pxar/decoder.rs:114-129 | On any bytes: the name that was read stands there, valid, closed by a zero and of the announced length |
| PxarAnyBytes.NextStands | pbs-client/src/pxar/decoder.rs:131-195 | On any bytes: where an entry was read stand an entry header, the reported stat and the head of the reported kind with its size or target |
| PxarRoundTrip.StraysAreNotRead | pbs-client/src/pxar/decoder.rs:54-209 | The same for an archive with anything behind it: nothing behind it is read |
| PxarLimits.WriteOne | pbs-client/src/pxar/encoder.rs:25-147 | One file or symlink in a fresh archive: the calls succeed and the output is the encoding, of the stated length |
| PxarLimits.LongName | pbs-client/src/pxar/decoder.rs:116-120 | A file with a name of 256 bytes is written without an error, and draining the archive is one |
| PxarLimits.LongTarget | pbs-client/src/pxar/decoder.rs:147-154 | The same for a symlink with a target of 4096 bytes |
| PxarLimits.AfterTheRoot | pbs-client/src/pxar/encoder.rs:50-72 | After a finished root with a file `a` in it, creating and finishing an empty directory succeeds; the sequential reader still lists `/` and `/a`, the other one opens the empty directory as the root and does not find the file |
| PxarRoundTrip.PayloadReadsAreHarmless | pbs-client/src/pxar/decoder.rs:263-281 | However much of a payload is read, what comes after is the same |
| PxarRoundTrip.ReadSome | pbs-client/src/pxar/decoder.rs:263-281 | Any reads of the current payload give a prefix of it and change nothing after it |
| PxarRoundTrip.ReadEverything | pbs-client/src/pxar/decoder.rs:54-88 | A caller that takes all entries and reads of each payload what it likes gets exactly the described listing |
| PxarAccessor.ReadAt | pbs-client/src/pxar/accessor.rs:13-18 | An input that gives any non-empty part of what is asked for, nothing only at the end, or, where it may, an error |
| PxarAccessor.ReadExactAt | pbs-client/src/pxar/accessor.rs:369-387 | The pieces add up to exactly the slice, or to an error at the end, however they are cut; where the input may fail, that or an error |
| PxarAccessor.ReadHeader | pbs-client/src/pxar/accessor.rs:345-360 | A header of at least its own size, or the error; where the input may fail, that or an error |
| PxarAccessor.ReadMetadata | pbs-client/src/pxar/accessor.rs:319-343 | The stat behind an entry header of the right size, or the error; where the input may fail, that or an error |
| PxarAccessor.ReadName | pbs-client/src/pxar/accessor.rs:170-186 | The name behind a filename header, with each of the checks in order; where the input may fail, that or an error |
| PxarAccessor.ReadCursor | pbs-client/src/pxar/accessor.rs:148-168 | Name and range of the entry a slot points at, with each of the checks in order; where the input may fail, that or an error |
| PxarAccessor.ReadEntry | pbs-client/src/pxar/accessor.rs:282-317 | Stat and kind of the entry at a place, with each of the checks in order; where the input may fail, that or an error |
| PxarAccessor.PathSpells | pbs-client/src/pxar/accessor.rs:93-101 | Every path without a parent component spells a list of names: its normal components in order |
| PxarAccessor.SpelledNames | pbs-client/src/pxar/accessor.rs:93-101 | The names a path spells are the ones that are looked up, in that order |
| PxarAccessor.ParentIsRefused | pbs-client/src/pxar/accessor.rs:93-101 | A path is refused exactly if it has a parent component |
| PxarAccessor.OpenDirectory | pbs-client/src/pxar/accessor.rs:47-90 | The tail and the table at the end of a directory's bytes, with each of the source's checks; where the input may fail, that or an error |
| PxarAccessor.ParseItems | pbs-client/src/pxar/accessor.rs:74-83 | Every 24 bytes give one item |
| PxarAccessor.LookupName | pbs-client/src/pxar/accessor.rs:123-146 | The loop over equal hashes ends, and finds the first slot of the duplicate search whose file name is the wanted one; where the input may fail, that or an error |
| PxarAccessor.Lookup | pbs-client/src/pxar/accessor.rs:92-121 | A path is resolved a component at a time; the empty path gives nothing, a parent component is an error; where the input may fail, that or an error |
| PxarAccessor.ReadContentsAt | pbs-client/src/pxar/accessor.rs:268-280 | A read of a file gives a part of the file's own bytes, and nothing only at its end; it fails only inside the file and where the input may |
| PxarLookup.DirectoryOpens | pbs-client/src/pxar/accessor.rs:47-90 | The bytes of a directory, entered from their end, give back its table and the offset of its goodbye header |
| PxarLookup.LastDirectoryOpens | pbs-client/src/pxar/accessor.rs:26-37 | Whatever stands in front of it, a directory at the end of the bytes is opened as the root |
| PxarLookup.TableRoundTrip | pbs-client/src/pxar/format.rs:49-72 | A table that was written reads back as it was |
| PxarLookup.SlotCursor | pbs-client/src/pxar/accessor.rs:148-168 | Each slot's distance leads back to the name of the child it stands for |
| PxarLookup.EntryDecodes | pbs-client/src/pxar/accessor.rs:282-317 | The random-access reader reads the stat and kind that were written, and where the payload is |
| PxarLookup.ComponentExact | pbs-client/src/pxar/accessor.rs:123-146 | A written child is found by its name, with stat, kind and end, if and only if the duplicate search gives its slot |
| PxarLookup.ComponentAbsent | pbs-client/src/pxar/accessor.rs:123-146 | A name that was not written is not found, whatever it collides with |
| PxarLookup.DirectoryExact | pbs-client/src/pxar/accessor.rs:123-146 | A directory finds all of its children if and only if, hash by hash, their slots lie on one path of its table |
| PxarLookup.KidFound | pbs-client/src/pxar/accessor.rs:123-146 | In such a directory every child is found |
| PxarLookup.KidEnters | pbs-client/src/pxar/accessor.rs:228-233 | A directory found by lookup opens as the directory it is |
| PxarLookup.LookupResolves | pbs-client/src/pxar/accessor.rs:92-121 | Looking up a path gives the node it names; nothing if a directory on the way lacks the next name; an error if the path goes on below a file or symlink |
| PxarLookup.ResolvedPath | pbs-client/src/pxar/accessor.rs:189-205 | What names lead to has the path made of exactly these names, each behind one slash |
| PxarLookup.RootedSpells | pbs-client/src/pxar/accessor.rs:93-101 | A root component and then one normal component for each name spell these names |
| PxarLookup.IgnoredComponent | pbs-client/src/pxar/accessor.rs:93-101 | A root or current-directory component changes nothing about a lookup, wherever it stands |
| PxarLookup.ArchiveLookup | pbs-client/src/pxar/accessor.rs:26-121 | For a whole archive from its last byte: the normal components of the path, in order, are resolved one below the other, and what they lead to is reported under exactly these names; nothing for the empty path or a missing name, the error of an entry that is no directory below a file; the error of unsupported components if and only if there is a parent component |
| PxarLimits.BelowAFile | pbs-client/src/pxar/accessor.rs:92-121 | In a written archive with a file `a`, looking up `a/a` is an error and looking up the empty path gives nothing |
| PxarPaths.ComponentIsSound | pbs-client/src/pxar/accessor.rs:123-146 | With distinct names, whatever collides: looking up a name gives the child of that name with its stat and kind, or nothing |
| PxarPaths.LookupIsSound | pbs-client/src/pxar/accessor.rs:92-121 | With distinct names in every directory, whatever collides: a path gives the node it names, or nothing, or an error where it goes on below a file; never another node |
| PxarPaths.EveryPathExactly | pbs-client/src/pxar/accessor.rs:92-146 | With distinct names in every directory, every path of the tree is found if and only if no directory, at any depth, has a fork |
| PxarLookup.FewCollisionsNoForks | pbs-client/src/pxar/accessor.rs:131-145 | Up to two children to a hash are always all found |
| PxarLookup.FewCollisionsNavigable | pbs-client/src/pxar/accessor.rs:92-146 | If in every directory names differ and no three share a hash, every path of the tree can be looked up |
| PxarLookup.ThirdCollisionIsLost | pbs-client/src/pxar/accessor.rs:131-145 | With three children of one hash the one in the last slot is in the archive and looking it up gives nothing |
| PxarLookup.ContentsAreWritten | pbs-client/src/pxar/accessor.rs:235-251 | The contents of a file found by lookup are the payload that was written |
| PxarLookup.WrittenFileReadsBack | pbs-client/src/pxar/accessor.rs:92-121 | A written file, looked up by its names from the last byte of the archive, is reported under these names with its stat and has exactly its payload |
| PxarLookup.ReadToEnd | pbs-client/src/pxar/accessor.rs:268-280 | Repeated reads with buffers of any size give the file from an offset to its end, and fail only where the input may |
| PxarAnyBytes.OpensExactly | pbs-client/src/pxar/accessor.rs:47-90 | On any bytes: a directory opens exactly at the end of a tail that has the marker and whose size is a header, a whole number of items and the tail itself, and fits |
| PxarAnyBytes.OpenedStands | pbs-client/src/pxar/accessor.rs:47-90 | On any bytes: the table of a directory that was opened stands in front of that tail, item for item |
| PxarAnyBytes.LookupIsNamed | pbs-client/src/pxar/accessor.rs:92-205 | On any bytes: what a lookup finds is reported under exactly the names that were asked for, and these are valid |
| PxarAnyBytes.DecodedStands | pbs-client/src/pxar/accessor.rs:282-317 | On any bytes: where an entry was decoded stand an entry header, the reported stat and the head of the reported kind; it is a directory exactly if it ends there or a name or goodbye table comes next |
| PxarAnyBytes.LookupStands | pbs-client/src/pxar/accessor.rs:123-205 | On any bytes: what is found is in a slot with the hash of the name, and where that slot points stand the name and then what is reported |
| PxarAnyBytes.FoundContents | pbs-client/src/pxar/accessor.rs:235-251 | On any bytes: what is found has contents exactly if it is a file, and they start behind a payload header of their size |
| PxarAnyBytes.OnlyFilesHaveContents | pbs-client/src/pxar/accessor.rs:235-251 | Contents are refused exactly for what is no file, or a file without an offset |
| Varint.PushU64 | pbs-client/src/catalog.rs:23-32 | Pushes seven bits a byte, low bits first |
| Varint.PushI64 | pbs-client/src/catalog.rs:34-51 | The same for signed values, with the sign in bit 6 of the last byte |
| Varint.U64RoundTrip | pbs-client/src/catalog.rs:274-288 | Every u64 decodes to itself, with the cursor right behind it, whatever follows |
| Varint.I64RoundTrip | pbs-client/src/catalog.rs:290-310 | Every i64 decodes to itself, the least one included |
| Varint.TenBytes | pbs-client/src/catalog.rs:23-51 | No integer takes more than ten bytes |
| Varint.OrIsSum | pbs-client/src/catalog.rs:281 | While the value fits, joining the next bits in is adding them, and nothing is shifted out |
| Varint.OrIsModular | pbs-client/src/catalog.rs:281 | On any bytes, joining the next bits in is adding them in 64 bits |
| Varint.SignedWraps | pbs-client/src/catalog.rs:301-306 | On any bytes, the sign is applied as in 64-bit wrapping arithmetic |
| Varint.Cursor.Byte | pbs-client/src/catalog.rs:250-258 | The next byte, or an error at the end |
| Varint.Cursor.Take | pbs-client/src/catalog.rs:260-272 | The next bytes, or the source's overflow and range errors |
| Varint.Cursor.U64 | pbs-client/src/catalog.rs:274-288 | The loop computes the recursive decoding, errors included |
| Varint.Cursor.I64 | pbs-client/src/catalog.rs:290-310 | The same for signed values |
| CatalogFormat.BlockShift | pbs-client/src/catalog.rs:82-94 | Directories point back by distances, so a block is the same wherever its directory is written |
| CatalogFormat.PieceStarts | pbs-client/src/catalog.rs:155-175 | Each child's block stands inside its own piece, before its directory's block |
| CatalogFormat.EntriesOfAppend | pbs-client/src/catalog.rs:177-183 | One more child adds one more entry |
| CatalogFormat.TypeLetters | pbs-client/src/catalog.rs:14-21 | Every entry begins with the letter of its node: d, f, l, h, b, c, p or s |
| CatalogWriter.EncodeEntry | pbs-client/src/catalog.rs:96-122 | One entry: type byte, name and attribute |
| CatalogWriter.EncodeDirectory | pbs-client/src/catalog.rs:82-94 | A block: the table behind its length, the entries behind their count |
| CatalogWriter.FrameEnded | pbs-client/src/catalog.rs:155-175 | Ending a directory writes its block right behind its children, and together they are one piece of the parent |
| CatalogWriter.KidAdded | pbs-client/src/catalog.rs:177-183 | Adding an entry keeps the stack in step with the tree |
| CatalogWriter.Writer.constructor | pbs-client/src/catalog.rs:130-137 | A new catalog is the magic, with the root open |
| CatalogWriter.Writer.StartDirectory | pbs-client/src/catalog.rs:151-153 | Opens a directory and writes nothing |
| CatalogWriter.Writer.EndDirectory | pbs-client/src/catalog.rs:155-175 | Writes the block and records the directory; ending the root is an error that leaves the stack empty |
| CatalogWriter.Writer.AddLeaf | pbs-client/src/catalog.rs:185-211 | Files, symlinks, hard links and special files become entries |
| CatalogWriter.Writer.Finish | pbs-client/src/catalog.rs:213-230 | Succeeds exactly when only the root is open; the output is then the catalog of the recorded tree |
| CatalogReader.ReadTableAt | pbs-client/src/catalog.rs:326-366 | A block reads as its entries; each takes at least two bytes, children are not above the block, every read is inside the data |
| CatalogReader.Walker.Walk | pbs-client/src/catalog.rs:368-429 | The walk computes its description, visits no block twice and ends |
| CatalogReader.Parse | pbs-client/src/catalog.rs:431-477 | The parse computes its description |
| CatalogRoundTrip.WalkGoesDown | pbs-client/src/catalog.rs:368-429 | On any bytes an accepted walk reaches only blocks not above its own, none of them visited before, and only adds to the output |
| CatalogRoundTrip.EntriesGoDown | pbs-client/src/catalog.rs:385-427 | On any bytes the children of an accepted walk are strictly below their directory |
| CatalogRoundTrip.ParseIsBounded | pbs-client/src/catalog.rs:431-477 | On any bytes an accepted parse visits at most one block a byte, all inside the data, and keeps the entry limit |
| CatalogRoundTrip.TableReads | pbs-client/src/catalog.rs:326-366 | A written block reads back as its entries, with the positions of the children |
| CatalogRoundTrip.NodeWalk | pbs-client/src/catalog.rs:368-429 | Walking a written node lists it and everything below in pre-order, and fails exactly if a limit is exceeded |
| CatalogRoundTrip.KidsWalk | pbs-client/src/catalog.rs:368-429 | The same for the children of a directory |
| CatalogRoundTrip.RootWalks | pbs-client/src/catalog.rs:448-474 | The same for the root: the names of top-level directories are dropped, hard links are files of size 0, special files are left out |
| CatalogRoundTrip.CatalogParses | pbs-client/src/catalog.rs:431-477 | Parsing a written catalog gives the listing of its tree, kind, size, mode and time of each node stated by itself and its path as its names with a slash between them; it succeeds if and only if the tree keeps within the depth and entry limits, so the visited check never rejects it |
| CatalogRoundTrip.EmitsEntry | pbs-client/src/catalog.rs:388-424 | A directory is reported with mode 0o755, a file with its size and time and mode 0o644, a hard link as a file of size 0, a symlink with mode 0o777, and anything else not at all |
| CatalogRoundTrip.PathsAreNames | pbs-client/src/catalog.rs:387 | Where names are proper, the path of a node is the names that lead to it from its top-level directory, with one slash between them |
| CatalogLimits.FifoHitsTheLimit | pbs-client/src/catalog.rs:385-427 | A directory with as many files as the limit is parsed; with a fifo behind them the listing would be the same and parsing is an error |
| ChunkUpload.UploadProtocol | pbs-client/src/writer.rs:160-217 | In every run, whatever the compression timing and whatever fails: a registered digest was known or has been uploaded before, a batch has 1 to 256 chunks, nothing is uploaded that was known or uploaded before or under another digest, and nothing follows the close |
| ChunkUpload.BatchesAreFull | pbs-client/src/writer.rs:110-213 | In every run every batch but the last has exactly 256 chunks, and no more chunks are held back than there are compression threads, or one without any, and the 4 places of the channel |
| ChunkUpload.WindowFills | pbs-client/src/writer.rs:131-147 | As many chunks can be under compression at a time as there are threads |
| ChunkUpload.EveryRunIsServed | pbs-client/src/writer.rs:112-218 | In every run the invariants hold and a strict server accepts all it is sent |
| ChunkUpload.InvNext | pbs-client/src/writer.rs:112-218 | Every step of producer and consumer keeps the invariant: what is in flight continues, in order, what is recorded |
| ChunkUpload.LogNext | pbs-client/src/writer.rs:160-231 | Every step keeps the server's view: what is registered and what is still listed are together the chunks so far |
| ChunkUpload.PullChunkInv | pbs-client/src/writer.rs:119-142 | Pulling a chunk keeps the order and the set of known digests |
| ChunkUpload.CompressedInv | pbs-client/src/writer.rs:131-147 | Compression may end in any order, well or badly, and what is sent stays in order |
| ChunkUpload.SendInv | pbs-client/src/writer.rs:149-155 | Sending keeps the order; a failure is the last thing sent |
| ChunkUpload.ReceiveInv | pbs-client/src/writer.rs:166-197 | The next message is that of the next chunk |
| ChunkUpload.RegisterLog | pbs-client/src/writer.rs:199-213 | Every batch that is registered lists only chunks the server holds |
| ChunkUpload.IndexIsTheStream | pbs-client/src/writer.rs:210-231 | At the close the registered digests and offsets are those of all the chunks in order, and count and size are theirs; nothing less is ever closed |
| ChunkUpload.IndexReadsBack | pbs-client/src/writer.rs:210-231 | With no colliding digests, what the server holds under the listed digests is the stream |
| ChunkUpload.NeverStuck | pbs-client/src/writer.rs:110-218 | Until it has finished or failed, a run can take a step in which nothing fails |
| ChunkUpload.ReadErrorFails | pbs-client/src/writer.rs:119-155 | A stream that fails to read: the failure is sent, the upload fails, and nothing is registered or closed |
| ChunkUpload.CompressionFails | pbs-client/src/writer.rs:131-155 | A chunk whose compression fails ends the upload in the same way |
| ChunkUpload.RunsEnd | pbs-client/src/writer.rs:110-218 | Every run, whatever fails in it, is over after at most five steps a chunk, four a place in the window, and two |
| ChunkIndex.ParseDynamicIndexEntries | pbs-client/src/reader.rs:97-125 | The result is the list of entries whose encoding the data is behind its header, and an error exactly if there is none |
| ChunkIndex.OneReading | pbs-client/src/reader.rs:97-125 | An index has one reading, so parsing gives back what was written |
| ChunkIndex.Reassemble | pbs-client/src/reader.rs:70-94 | Everything up to the first failed download is written in index order, and that failure is the result |
| ChunkReader.RecencyIsByLastUse | pbs-client/src/accessor.rs:66-86 | The recency list orders indices by when they were last used |
| ChunkReader.RecencyMember | pbs-client/src/accessor.rs:66-86 | It has exactly the indices that were used |
| ChunkReader.RecencyNoDups | pbs-client/src/accessor.rs:66-86 | It has each of them once |
| ChunkReader.KeptAfterHit | pbs-client/src/accessor.rs:66-73 | Moving a found index to the back keeps the list the last `capacity` of the recency order |
| ChunkReader.KeptAfterMiss | pbs-client/src/accessor.rs:75-86 | So does adding a new index in place of the oldest |
| ChunkReader.ChunkCache.constructor | pbs-client/src/accessor.rs:58-64 | An empty cache with room for at least one chunk |
| ChunkReader.ChunkCache.Get | pbs-client/src/accessor.rs:66-73 | The chunk of an index if it is held, moved to the back; the cache stays the least-recently-used one |
| ChunkReader.ChunkCache.Insert | pbs-client/src/accessor.rs:75-86 | A new chunk goes in, only the least recently used goes out, and only if there is no room; one that is held is left alone |
| ChunkReader.ChunkCache.MakeRoom | pbs-client/src/accessor.rs:79-83 | The eviction loop removes the oldest exactly if the cache is full |
| ChunkReader.PartitionPoint | pbs-client/src/accessor.rs:136 | A place where the ends pass the offset, on any list of ends |
| ChunkReader.PieceInPlace | pbs-client/src/accessor.rs:136-146 | Each chunk stands in the archive between its start and its end |
| ChunkReader.Placed | pbs-client/src/accessor.rs:136-143 | With truthful ends the place found is the chunk that covers the offset |
| ChunkReader.Interfere | pbs-client/src/accessor.rs:98-129 | Whatever other tasks do to the cache in between, it holds only true chunks and stays valid |
| ChunkReader.ChunkReaderInner.constructor | pbs-client/src/accessor.rs:262-287 | The reader's size is the last end |
| ChunkReader.ChunkReaderInner.FetchChunk | pbs-client/src/accessor.rs:98-129 | The true chunk, whether cached or downloaded and whatever happens to the cache meanwhile; else the download's error, or that of the range |
| ChunkReader.ChunkReaderInner.ReadInto | pbs-client/src/accessor.rs:131-156 | With a truthful index a read is a read of the flat archive: a non-empty part of what is asked for, or nothing at the end, or a download's error; the rest of the buffer is untouched |
| ChunkReader.CopyPart | pbs-client/src/accessor.rs:143-155 | The part of a chunk from a place on, as much as there is and fits; an error exactly if the place is behind the chunk |
| ChunkReader.ReadExactThrough | pbs-client/src/pxar/accessor.rs:369-387 | An exact read over the cached reader, in any number of rounds and with other tasks at the cache between them, is a slice of the uploaded archive, its error at the end, or the error of one of the downloads |
| ChunkRoundTrip.UploadedIndexIsTruthful | pbs-client/src/writer.rs:210-231 | The index of a finished upload has the bounds of the chunks in the stream, lists what was uploaded, is the list the client checksums, and its size is the length of the stream |
| ChunkRoundTrip.ParsedIndexServesTheStream | pbs-client/src/accessor.rs:262-287 | Parsed again it serves the flat stream, and reassembling it gives the stream |
| FileReader.PbsFileReader.constructor | pbs-client/src/accessor.rs:183-191 | A reader with nothing delivered |
| FileReader.PbsFileReader.PollRead | pbs-client/src/accessor.rs:194-226 | What is delivered is the file from the start of the range on, offset and remaining always add up, nothing underflows; it panics exactly if a failed read is polled again or a finished one has brought more than there is room for |
| FileReader.BringsAtMost | pbs-client/src/accessor.rs:194-226 | A read that is under way can bring more than there is room for if and only if the lesser of what was asked for and what the file has left is more |
| FileReader.SafeToPoll | pbs-client/src/accessor.rs:194-226 | On the side of the caller: no outcome that a read may have makes the poll panic, if and only if nothing is under way, or what is has not failed and the most it can bring fits |
| FileReader.PanicsWithLessRoom | pbs-client/src/accessor.rs:203-209 | Four bytes asked for, polled again with room for one: a panic |
| FileReader.PanicsAfterFailure | pbs-client/src/accessor.rs:203-205 | A failed read, and another poll: a panic |
| FileReader.ReadAll | pbs-client/src/accessor.rs:194-226 | A caller that polls with the same buffer until it is served gets exactly the range of the file, or, where reads may fail, an error |
| Lines.SplitConcat | application/src/io/tail.rs:13-58 | Where a newline ends the first part, the lines of the whole are the lines of the parts |
| Lines.SplitJoins | application/src/io/tail.rs:105-129 | The lines put together are the data |
| Lines.LinesEndOnce | application/src/io/tail.rs:60-103 | No line is empty or has a newline but at its end, and only the last one may have none |
| LineBuffer.NextPieceIsStable | application/src/io/line_buffer.rs:22-45 | A line that can be had stays the same whatever arrives later |
| LineBuffer.CutInTwo | application/src/io/line_buffer.rs:22-45 | Cutting what came first and then the rest is cutting all of it |
| LineBuffer.CutRebuilds | application/src/io/line_buffer.rs:22-45 | Untrimmed lines, their newlines and the remainder rebuild the input |
| LineBuffer.CutIsBounded | application/src/io/line_buffer.rs:30-37 | No line has more than 5120 bytes or a newline in it, one without newline has exactly 5120, and the remainder has neither |
| LineBuffer.TrimCutsTheEnds | application/src/io/line_buffer.rs:44 | Trimming takes tabs, newlines, form feeds, carriage returns and spaces off both ends, all of them and nothing else |
| LineBuffer.LineBuffer.constructor | application/src/io/line_buffer.rs:11-16 | An empty buffer |
| LineBuffer.LineBuffer.Extend | application/src/io/line_buffer.rs:18-20 | Lines given and input waiting remain the cut of all the input |
| LineBuffer.LineBuffer.NextLine | application/src/io/line_buffer.rs:22-45 | The next line of the whole input, trimmed; none exactly if all that can be had has been given |
| LineBuffer.LineBuffer.Compact | application/src/io/line_buffer.rs:47-52 | Changes nothing that can be seen, leaves the cursor low or in the first half, and moves bytes only if the cursor is beyond both |
| LineBuffer.LineBuffer.Flush | application/src/io/line_buffer.rs:54-57 | The trimmed remainder, none exactly if it is empty |
| LineBuffer.EmitLines | application/src/server/executor/docker/mod.rs:932-944 | The lines emitted for a container depend only on the bytes of its output, not on how they were cut |
| Tail.CountGrows | application/src/io/tail.rs:39-52 | One byte more at the front is one line more exactly if it is a newline with something after it |
| Tail.AsyncTail | application/src/io/tail.rs:13-58 | For any block size the cursor ends at the start of the last lines, or at 0 if there are fewer |
| Tail.ReadLineCapped | application/src/io/tail.rs:60-103 | One line, capped at 10 KiB with its newline kept, for every way the reader cuts the input |
| Tail.KeepMore | application/src/io/tail.rs:76-84 | The line built is always the first 10 KiB of what was read, and truncation is noticed exactly when there was more |
| Tail.AsyncTailStream | application/src/io/tail.rs:105-129 | The last lines, capped, for every way the reader cuts the input |
| Tail.BothWaysAgree | application/src/io/tail.rs:13-129 | Both ways give the same bytes if and only if each of the last lines is kept whole |
| Tail.KeptWhole | application/src/io/tail.rs:76-100 | A line is kept whole if and only if what comes before its newline has at most 10 KiB |
| Activity.NearIsUnder61 | application/src/server/activity.rs:203-208 | The merge window is every distance below 61 seconds |
| Activity.MergedBeyondAMinute | application/src/server/activity.rs:203-208 | Two activities 60.5 seconds apart are merged |
| Activity.FinalizedFiles | application/src/server/activity.rs:286-295 | A finalized group has the file entries of all its members |
| Activity.NonArrayFiles | application/src/server/activity.rs:286-295 | At the head of a group a `files` value that is not an array survives the merge if and only if no member has a file entry; otherwise the entries replace it |
| Activity.NonArrayIsLost | application/src/server/activity.rs:286-295 | Such a value, followed within the window by an activity with one entry, is gone |
| Activity.FinalizedKeepsKey | application/src/server/activity.rs:286-295 | Finalizing does not change what an activity is merged by |
| Activity.MergeIsGrouping | application/src/server/activity.rs:195-262 | For one key, merging cuts the activities into consecutive stretches, each within the window of its first and started outside the window of the one before, and makes one activity of each |
| Activity.MergeConserves | application/src/server/activity.rs:185-274 | For one key no file entry is lost, added or moved |
| Activity.Take | application/src/server/activity.rs:200-224 | The step for an activity with a key: join the open group, or close it and open another |
| Activity.MergeActivities | application/src/server/activity.rs:185-274 | Key by key the output is the merge of the input; for each SFTP event and user, and for each user and upload directory, the file entries are the same sequence as before; activities that are not merged are all there, unchanged and in order |
| Activity.KeyIsFields | application/src/server/activity.rs:193-233 | An activity belongs to the group of an SFTP event and user, or of a user and upload directory, exactly if these are its own fields and it has a `files` field |
| Activity.SameKey | application/src/server/activity.rs:193-233 | Two activities share a group exactly if both can be merged and event, user and, for uploads, directory agree |
| Activity.FinalizedKeepsBase | application/src/server/activity.rs:286-295 | Finalizing changes nothing but the `files` field, and that only where there is one and entries to put in |
| Activity.MergedIsFirst | application/src/server/activity.rs:195-262 | The activity made of a group is its first one, every field and all other metadata, with the file entries of all members in order |
| Activity.StandsTakes | application/src/server/activity.rs:200-257 | An activity with a key changes only what stands for that key |
| Activity.Drain | application/src/server/activity.rs:264-271 | Closing the open groups in any order completes the merge of each key |
| Activity.IsMergeConserves | application/src/server/activity.rs:185-274 | A merge keeps, for each event and user and for each user and upload directory, the sequence of file entries, and every activity that is not merged |
| Activity.ActivitySender.constructor | application/src/server/activity.rs:105 | At first nothing is over |
| Activity.ActivitySender.Round | application/src/server/activity.rs:107-136 | What was sent and what is over are, for each event and user or user and directory, in order, the file entries received, and the activities that are not merged; at most the send count is sent, and the rest is merged again |
| Activity.Conserved | application/src/server/activity.rs:113-130 | Merging leftovers again with a new batch loses and repeats nothing |
| RateLimit.LimitedReader.constructor | application/src/io/limited_reader.rs:20-27 | A new window with nothing used, over the given reader |
| RateLimit.LimitedReader.Read | application/src/io/limited_reader.rs:31-63 | The inner reader is asked once, for exactly the lesser of the buffer and what the window has left, which is at least 1, and its bytes are handed on; so nothing is given only at its end. For every clock: the budget never underflows, windows start at least a second apart, it sleeps at most a second and only when the window is used up, and the bytes let through in any interval stay within the limit for each second it covers and one more |
| RateLimit.ReadToEnd | application/src/io/limited_reader.rs:31-63 | Reading with buffers of any size until nothing comes gives all that was left of the inner reader, or its failure |
| RateLimit.WindowMoves | application/src/io/limited_reader.rs:41-56 | A new window, not before the end of the old one, accounts for what the old one used |
| RateLimit.GrantAdds | application/src/io/limited_reader.rs:58-60 | A grant within the budget keeps the account and the bound on every interval |
| HandleLimit.CounterIsExact | application/src/ssh/limiter.rs:185-221 | In every interleaving the counter is the live guards and the undecided attempts |
| HandleLimit.LiveHandlesAreCapped | application/src/ssh/limiter.rs:185-221 | In every interleaving, however the limit is reloaded between 1 and a cap, at most that many guards are live |
| HandleLimit.CappedNext | application/src/ssh/limiter.rs:192-205 | Every step keeps the live guards, and the attempts that may yet succeed, within the cap |
| HandleLimit.CountedNext | application/src/ssh/limiter.rs:185-221 | Every step keeps the count |
| HandleLimit.RefusalIsExact | application/src/ssh/limiter.rs:192-205 | In every run an attempt is refused if and only if the live guards and the undecided attempts at its `fetch_add` are as many as the limit it loads; only a success adds a guard |
| HandleLimit.RefusedWithHandlesFree | application/src/ssh/limiter.rs:192-205 | It is refused with handles free if and only if undecided attempts make up the rest |
| HandleLimit.AloneIsExact | application/src/ssh/limiter.rs:192-205 | With no attempt undecided when it is added, an attempt succeeds if and only if a handle is free |
| HandleLimit.NoLimitNoRefusal | application/src/ssh/limiter.rs:186-190 | While the limit is zero, no attempt is counted against it and none is refused |
| HandleLimit.FreeIsLetThrough | application/src/ssh/limiter.rs:186-190 | An attempt that found the limit to be zero is let through by its next step, whatever the limit is by then |
| HandleLimit.RefusedWithNoneLive | application/src/ssh/limiter.rs:192-198 | A run with a limit of one in which an attempt is refused while no handle is live |
| JwtUses.UsesAreLimited | application/src/remote/jwt.rs:175-203 | In every interleaving the uses of an id let through since its last sweep are its stored count and at most the limit |
| JwtUses.InvNext | application/src/remote/jwt.rs:125-203 | Every step of every thread and of the sweeper keeps the locks exclusive and the counts exact |
| JwtUses.RefusedMeansUsedUp | application/src/remote/jwt.rs:180-188 | A use is refused only when the limit has been reached |
| JwtUses.CallEnds | application/src/remote/jwt.rs:175-203 | In every step a call goes on asking for the same use, or that use is let through and counted, or it is refused; it never just ends |
| DedupPaths.PathOrder | application/src/utils.rs:134 | Paths are totally ordered, component by component |
| DedupPaths.PathsFirstDifference | application/src/utils.rs:134 | Paths compare at the first component in which they differ: the root, then the current and the parent directory, then names; a prefix comes first |
| DedupPaths.BytesFirstDifference | application/src/utils.rs:134 | Names compare at the first byte in which they differ, and a prefix comes first |
| DedupPaths.DescendantsAreContiguous | application/src/utils.rs:138-146 | What stands in the order between a path and one below it is below it too |
| DedupPaths.Dedup | application/src/utils.rs:135 | Of equal paths one stays |
| DedupPaths.LastDecides | application/src/utils.rs:138-146 | In sorted order the last path kept is the only one that has to be looked at |
| DedupPaths.DeduplicatePaths | application/src/utils.rs:129-149 | The result is exactly the input paths that no other input path is above, each once and in order |
| DedupPaths.CoverCovers | application/src/utils.rs:129-149 | Every input path is below or equal to one of the result |
| DedupPaths.CoverIsUnique | application/src/utils.rs:129-149 | There is only one such result |

## Left out

- The asynchronous decoder, contents and limited reader: the same steps as the synchronous ones.
- HTTP/2, TLS, REST and the panel's clients: network plumbing; only the order of uploads, registrations and the close is kept.
- `datablob.rs`: a header around compression and a checksum that would have to be taken on trust.
- The content-defined chunker: any cutting of the stream is allowed instead.
- The server's lifecycle, Docker, containers, transfers, routes, configuration, SSH shells and the command line: effects on systems outside the code.
- `strip_paths`: edits JSON along one path; it would add only easy members.
- Login attempts and session counts of `SshLimiter`: each is one step under a lock.
- Denied tokens and the other checks of a JWT payload: plain comparisons.
- Writing errors of the sinks the encoder, the catalog writer and the reassembly write to: every write here succeeds.
- PxarEncoder.Encoder.AddFile: after a reader that is too short the output is stated, but the invariant does not hold of a torn entry, so later calls are not covered.
- PxarDecoder.Decoder.Next: the state that an error leaves behind is not described; what `next` gives after an error is not promised by the source either.
- PxarDecoder.Decoder.ReadNameOf: the same; the state after an error is not described.
- PxarDecoder.Decoder.ReadNamedRest: the same; the state after an error is not described.
- PxarAccessor.Lookup: where the input may fail, it is left open which read does, and with what error.
- `Drop` of the encoder: it only warns.
- Windows path prefixes in `deduplicate_paths`, and names that are not byte strings.
- In a debug build negating a magnitude of 2^63 in the catalog's `i64` would panic; the wrapping of a release build is modelled.
- Whether activities that were handed to the client arrive: a failed send is only logged.
- The producer and the consumer of the upload run on one task in the source, and the model lets them interleave at every step, which allows more runs than there are.
- ChunkReader.PartitionPoint: the library's bisection may try other places first; only what it promises of the place it returns is used.
- PxarEncoder.SortByHash: which order equal hashes come in is the library's choice; the proofs hold for each.
- ChunkReader.ChunkReaderInner.ReadInto: of an index that lies it states only that nothing outside the reported part of the buffer changes, because there is no archive to compare with.
- RateLimit.LimitedReader.Read: a limit of zero means no limit, and then nothing is bounded; the bytes read are the result, rather than the front of a buffer.
- JwtUses.UsesAreLimited: a limit of zero means no limit; the first branch of the source, which counts nothing, is outside the runs.
