/** The dynamic index: a header, then one fixed-size entry a chunk; and reassembling what it lists. */
module ChunkIndex {
  import opened Bytes

  const DYNAMIC_INDEX_HEADER_SIZE: nat := 4096
  const DYNAMIC_INDEX_ENTRY_SIZE: nat := 40
  const DIGEST_SIZE: nat := 32

  type Chunk = seq<byte>
  type Digest = seq<byte>

  /** Where in the archive the chunk ends, and its digest. */
  datatype IndexEntry = IndexEntry(end: nat, digest: Digest)

  predicate FitsEntry(entry: IndexEntry) {
    entry.end < TWO_64 && |entry.digest| == DIGEST_SIZE
  }

  function EncodeEntry(entry: IndexEntry): seq<byte> {
    LE64(entry.end) + entry.digest
  }

  function EncodeEntries(entries: seq<IndexEntry>): seq<byte> {
    if entries == [] then []
    else EncodeEntries(entries[..|entries| - 1]) + EncodeEntry(entries[|entries| - 1])
  }

  lemma {:induction false} EncodedLength(entries: seq<IndexEntry>)
    requires forall e :: e in entries ==> FitsEntry(e)
    ensures |EncodeEntries(entries)| == DYNAMIC_INDEX_ENTRY_SIZE * |entries|
  {
    if entries != [] {
      EncodedLength(entries[..|entries| - 1]);
      assert FitsEntry(entries[|entries| - 1]);
    }
  }

  function DecodeEntry(raw: seq<byte>): IndexEntry
    requires |raw| == DYNAMIC_INDEX_ENTRY_SIZE
  {
    IndexEntry(FromLittleEndian(raw[..8]), raw[8..])
  }

  lemma EntryRoundTrip(raw: seq<byte>)
    requires |raw| == DYNAMIC_INDEX_ENTRY_SIZE
    ensures FitsEntry(DecodeEntry(raw)) && EncodeEntry(DecodeEntry(raw)) == raw
  {
    Pow256Widths();
    FromLittleEndianBound(raw[..8]);
    FromLittleEndianRoundTrip(raw[..8]);
    assert raw == raw[..8] + raw[8..];
  }

  lemma EntryDecodes(entry: IndexEntry)
    requires FitsEntry(entry)
    ensures |EncodeEntry(entry)| == DYNAMIC_INDEX_ENTRY_SIZE && DecodeEntry(EncodeEntry(entry)) == entry
  {
    LE64RoundTrip(entry.end);
    assert EncodeEntry(entry)[..8] == LE64(entry.end);
  }

  /** `raw` is a whole number of entries, and they are `entries`. */
  ghost predicate IsIndex(data: seq<byte>, entries: seq<IndexEntry>) {
    && |data| >= DYNAMIC_INDEX_HEADER_SIZE
    && (forall e :: e in entries ==> FitsEntry(e))
    && data[DYNAMIC_INDEX_HEADER_SIZE..] == EncodeEntries(entries)
  }

  /** `parse_dynamic_index_entries`: the entries whose encoding the data is, if there are such. */
  method ParseDynamicIndexEntries(data: seq<byte>) returns (r: Result<seq<IndexEntry>>)
    ensures r.Ok? ==> IsIndex(data, r.value)
    ensures r.Err? ==> !exists entries :: IsIndex(data, entries)
  {
    if |data| < DYNAMIC_INDEX_HEADER_SIZE {
      return Err("dynamic index shorter than its header");
    }
    var raw := data[DYNAMIC_INDEX_HEADER_SIZE..];
    if |raw| % DYNAMIC_INDEX_ENTRY_SIZE != 0 {
      forall entries | IsIndex(data, entries) ensures false {
        EncodedLength(entries);
        assert false;
      }
      return Err("dynamic index has a truncated entry");
    }
    var out: seq<IndexEntry> := [];
    var i: nat := 0;
    while i < |raw|
      invariant i <= |raw| && (|raw| - i) % DYNAMIC_INDEX_ENTRY_SIZE == 0
      invariant forall e :: e in out ==> FitsEntry(e)
      invariant EncodeEntries(out) == raw[..i]
    {
      var entry := raw[i..i + DYNAMIC_INDEX_ENTRY_SIZE];
      EntryRoundTrip(entry);
      ghost var before := out;
      out := out + [DecodeEntry(entry)];
      assert out[..|out| - 1] == before;
      assert raw[..i + DYNAMIC_INDEX_ENTRY_SIZE] == raw[..i] + entry;
      i := i + DYNAMIC_INDEX_ENTRY_SIZE;
    }
    assert raw[..i] == raw;
    r := Ok(out);
  }

  /** An index has one reading, so parsing gives back the entries that were written. */
  lemma {:induction false} OneReading(a: seq<IndexEntry>, b: seq<IndexEntry>)
    requires forall e :: e in a || e in b ==> FitsEntry(e)
    requires EncodeEntries(a) == EncodeEntries(b)
    ensures a == b
  {
    EncodedLength(a);
    EncodedLength(b);
    if a != [] {
      var x, y := a[|a| - 1], b[|b| - 1];
      var front, back := a[..|a| - 1], b[..|b| - 1];
      EncodedLength(front);
      EncodedLength(back);
      EntryDecodes(x);
      EntryDecodes(y);
      var all := EncodeEntries(a);
      assert all[..|EncodeEntries(front)|] == EncodeEntries(front) == EncodeEntries(back);
      assert all[|EncodeEntries(front)|..] == EncodeEntry(x) == EncodeEntry(y);
      OneReading(front, back);
      assert a == front + [x] && b == back + [y];
    }
  }

  // ---------------------------------------------------------------- reassembling

  /** How many of the replies come before the first failure. */
  function Good(replies: seq<Result<Chunk>>): (n: nat)
    ensures n <= |replies| && (forall i :: 0 <= i < n ==> replies[i].Ok?)
    ensures n < |replies| ==> replies[n].Err?
  {
    if replies == [] || replies[0].Err? then 0 else 1 + Good(replies[1..])
  }

  function Values(replies: seq<Result<Chunk>>): seq<Chunk>
    requires forall i :: 0 <= i < |replies| ==> replies[i].Ok?
  {
    seq(|replies|, i requires 0 <= i < |replies| => replies[i].value)
  }

  /** `reassemble_archive_inner` on the downloads in index order: everything up to the first failure
      is written, and that failure is the result. */
  method Reassemble(replies: seq<Result<Chunk>>) returns (written: seq<byte>, progress: nat, r: Result<()>)
    ensures written == Concat(Values(replies[..Good(replies)])) && progress == |written|
    ensures r == if Good(replies) == |replies| then Ok(()) else Err(replies[Good(replies)].error)
  {
    written, progress := [], 0;
    var i: nat := 0;
    while i < |replies|
      invariant i <= Good(replies)
      invariant written == Concat(Values(replies[..i])) && progress == |written|
    {
      match replies[i] {
        case Err(error) =>
          return written, progress, Err(error);
        case Ok(plaintext) =>
          progress := progress + |plaintext|;
          written := written + plaintext;
          assert Values(replies[..i + 1]) == Values(replies[..i]) + [plaintext];
          ConcatAppend(Values(replies[..i]), plaintext);
          i := i + 1;
      }
    }
    r := Ok(());
  }
}
