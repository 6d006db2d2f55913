/** From the upload to the reads: the index of a finished upload describes the uploaded stream. */
module ChunkRoundTrip {
  import opened Bytes
  import opened ChunkIndex
  import opened ChunkReader
  import U = ChunkUpload

  /** The index a server keeps for what was registered: each chunk ends where it starts plus its size. */
  function ServerIndex(v: U.Server): seq<IndexEntry>
    requires |v.digests| == |v.offsets| && forall d :: d in v.digests ==> d in v.contents
  {
    seq(|v.digests|, i requires 0 <= i < |v.digests| =>
      IndexEntry(v.offsets[i] + |v.contents[v.digests[i]]|, v.digests[i]))
  }

  function Ends(entries: seq<IndexEntry>): seq<nat> {
    seq(|entries|, i requires 0 <= i < |entries| => entries[i].end)
  }

  lemma {:induction false} TotalIsStart(chunks: seq<Chunk>, n: nat)
    requires n <= |chunks|
    ensures U.Total(chunks, n) == Start(chunks, n)
  {
    if n == 0 {
      assert chunks[..0] == [];
    } else {
      TotalIsStart(chunks, n - 1);
      ConcatNext(chunks, n - 1);
    }
  }

  /** Once an upload has finished, the server's index is the list the client checksums, its ends are
      the bounds of the chunks in the stream, what it lists is what was uploaded, and the size the
      client announces is the length of the stream. */
  lemma UploadedIndexIsTruthful(job: U.Job, initial: map<Digest, Chunk>, run: seq<U.State>)
    requires initial.Keys == job.known && U.NoCollisions(job, initial)
    requires U.IsRun(job, run) && run[|run| - 1].phase == U.Finished
    ensures var s := run[|run| - 1];
            var served := U.Serve(job.sha, initial, s.log);
            && served.Some?
            && var v := served.value;
            && |v.digests| == |v.offsets| == |job.chunks| == |s.entries|
            && (forall i :: 0 <= i < |v.digests| ==>
                  v.digests[i] in v.contents && v.contents[v.digests[i]] == job.chunks[i])
            && (forall i :: 0 <= i < |s.entries| ==>
                  ServerIndex(v)[i] == IndexEntry(s.entries[i].0, s.entries[i].1))
            && Indexes(Ends(ServerIndex(v)), job.chunks)
            && v.closed == Some((|job.chunks|, |Concat(job.chunks)|))
  {
    var s := run[|run| - 1];
    hide *;
    U.IndexIsTheStream(job, initial, run);
    U.IndexReadsBack(job, initial, run);
    ListedIsTruthful(job, U.Serve(job.sha, initial, s.log).value, s.entries);
    TotalIsStart(job.chunks, |job.chunks|);
    WholeArchive(job.chunks);
  }

  lemma ListedIsTruthful(job: U.Job, v: U.Server, entries: seq<(nat, Digest)>)
    requires U.Listed(job, v.digests, v.offsets, |job.chunks|) && |entries| == |job.chunks|
    requires forall i :: 0 <= i < |job.chunks| ==> entries[i] == (U.Total(job.chunks, i + 1), job.DigestOf(i))
    requires forall i :: 0 <= i < |entries| ==>
               var digest := entries[i].1; digest in v.contents && v.contents[digest] == job.chunks[i]
    ensures |v.digests| == |v.offsets| == |job.chunks|
    ensures forall i :: 0 <= i < |v.digests| ==> v.digests[i] in v.contents && v.contents[v.digests[i]] == job.chunks[i]
    ensures Indexes(Ends(ServerIndex(v)), job.chunks)
    ensures forall i :: 0 <= i < |entries| ==> ServerIndex(v)[i] == IndexEntry(entries[i].0, entries[i].1)
  {
    hide U.Total, Start, Indexes, Ends, ServerIndex;
    forall i | 0 <= i < |job.chunks|
      ensures v.digests[i] in v.contents && v.contents[v.digests[i]] == job.chunks[i]
      ensures v.offsets[i] + |job.chunks[i]| == Start(job.chunks, i + 1)
      ensures entries[i] == (Start(job.chunks, i + 1), v.digests[i])
    {
      TotalIsStart(job.chunks, i);
      TotalIsStart(job.chunks, i + 1);
      StartNext(job.chunks, i);
    }
    EndsAreBounds(v, entries, job.chunks);
  }

  lemma EndsAreBounds(v: U.Server, entries: seq<(nat, Digest)>, chunks: seq<Chunk>)
    requires |v.digests| == |v.offsets| == |chunks| == |entries|
    requires forall i :: 0 <= i < |chunks| ==> v.digests[i] in v.contents && v.contents[v.digests[i]] == chunks[i]
    requires forall i :: 0 <= i < |chunks| ==> v.offsets[i] + |chunks[i]| == Start(chunks, i + 1)
    requires forall i :: 0 <= i < |chunks| ==> entries[i] == (Start(chunks, i + 1), v.digests[i])
    ensures Indexes(Ends(ServerIndex(v)), chunks)
    ensures forall i :: 0 <= i < |entries| ==> ServerIndex(v)[i] == IndexEntry(entries[i].0, entries[i].1)
  {
    hide Start;
  }

  /** A parse of that index, then, is a truthful description of the stream for `ReadInto`; and
      downloading what it lists, in order, reassembles the stream. */
  lemma ParsedIndexServesTheStream(job: U.Job, initial: map<Digest, Chunk>, run: seq<U.State>,
                                   data: seq<byte>, parsed: seq<IndexEntry>, replies: seq<Result<Chunk>>)
    requires initial.Keys == job.known && U.NoCollisions(job, initial)
    requires U.IsRun(job, run) && run[|run| - 1].phase == U.Finished
    requires var served := U.Serve(job.sha, initial, run[|run| - 1].log);
             && served.Some? && |served.value.digests| == |served.value.offsets|
             && (forall d :: d in served.value.digests ==> d in served.value.contents)
             && IsIndex(data, ServerIndex(served.value)) && IsIndex(data, parsed)
             && |replies| == |parsed|
             && forall i :: 0 <= i < |replies| && replies[i].Ok? && parsed[i].digest in served.value.contents ==>
                              replies[i].value == served.value.contents[parsed[i].digest]
    ensures Indexes(Ends(parsed), job.chunks) && TrueReplies(replies, job.chunks)
    ensures (if parsed == [] then 0 else parsed[|parsed| - 1].end) == |Concat(job.chunks)|
    ensures Good(replies) == |replies| ==> Concat(Values(replies)) == Concat(job.chunks)
  {
    var s := run[|run| - 1];
    hide U.Serve, U.IsRun, U.NoCollisions, EncodeEntries;
    UploadedIndexIsTruthful(job, initial, run);
    var v := U.Serve(job.sha, initial, s.log).value;
    OneReading(parsed, ServerIndex(v));
    WholeArchive(job.chunks);
    if parsed != [] {
      assert Ends(parsed)[|parsed| - 1] == parsed[|parsed| - 1].end;
    }
    if Good(replies) == |replies| {
      assert Values(replies) == job.chunks;
    }
  }
}
