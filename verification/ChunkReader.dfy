/** The chunked archive as one flat byte array: an LRU cache of chunks, and reads at any offset. */
module ChunkReader {
  import opened Bytes
  import opened ChunkIndex
  import PxarAccessor
  import PxarFormat

  // ---------------------------------------------------------------- recency

  predicate NoDups(s: seq<nat>) {
    s == [] || (s[|s| - 1] !in s[..|s| - 1] && NoDups(s[..|s| - 1]))
  }

  function Without(s: seq<nat>, x: nat): seq<nat> {
    if s == [] then []
    else
      var front, last := s[..|s| - 1], s[|s| - 1];
      Without(front, x) + if last == x then [] else [last]
  }

  /** The indices of a history, each once, the least recently used first. */
  function Recency(history: seq<nat>): seq<nat> {
    if history == [] then []
    else
      var last := history[|history| - 1];
      Without(Recency(history[..|history| - 1]), last) + [last]
  }

  /** When `x` was last used. */
  function LastUse(history: seq<nat>, x: nat): nat
    requires x in history
  {
    if history[|history| - 1] == x then |history| - 1 else LastUse(history[..|history| - 1], x)
  }

  lemma {:induction false} WithoutMember(s: seq<nat>, x: nat, y: nat)
    ensures y in Without(s, x) <==> y in s && y != x
  {
    if s != [] {
      WithoutMember(s[..|s| - 1], x, y);
      assert s == s[..|s| - 1] + [s[|s| - 1]];
    }
  }

  lemma {:induction false} WithoutNoDups(s: seq<nat>, x: nat)
    requires NoDups(s)
    ensures NoDups(Without(s, x))
  {
    if s != [] {
      var front, last := s[..|s| - 1], s[|s| - 1];
      WithoutNoDups(front, x);
      WithoutMember(front, x, last);
      assert (Without(front, x) + [last])[..|Without(front, x)|] == Without(front, x);
      assert Without(front, x) + [] == Without(front, x);
    }
  }

  lemma {:induction false} WithoutConcat(a: seq<nat>, b: seq<nat>, x: nat)
    ensures Without(a + b, x) == Without(a, x) + Without(b, x)
  {
    if b == [] {
      assert a + b == a;
    } else {
      WithoutConcat(a, b[..|b| - 1], x);
      assert (a + b)[..|a + b| - 1] == a + b[..|b| - 1];
    }
  }

  lemma {:induction false} WithoutAbsent(s: seq<nat>, x: nat)
    requires x !in s
    ensures Without(s, x) == s
  {
    if s != [] {
      WithoutAbsent(s[..|s| - 1], x);
      assert s == s[..|s| - 1] + [s[|s| - 1]];
    }
  }

  /** In a list without duplicates, taking the one at `i` out is taking its value out. */
  lemma {:induction false} WithoutAt(s: seq<nat>, i: nat)
    requires NoDups(s) && i < |s|
    ensures Without(s, s[i]) == s[..i] + s[i + 1..]
  {
    var front, last := s[..|s| - 1], s[|s| - 1];
    if i == |s| - 1 {
      WithoutAbsent(front, last);
    } else {
      WithoutAt(front, i);
      assert front[i] == s[i];
      assert s[..i] + s[i + 1..] == front[..i] + front[i + 1..] + [last];
    }
  }

  lemma {:induction false} NoDupsApart(s: seq<nat>, i: nat, j: nat)
    requires NoDups(s) && i < j < |s|
    ensures s[i] != s[j]
  {
    if j == |s| - 1 {
      assert s[i] == s[..|s| - 1][i];
    } else {
      NoDupsApart(s[..|s| - 1], i, j);
    }
  }

  lemma {:induction false} NoDupsFrom(s: seq<nat>, k: nat)
    requires NoDups(s) && k <= |s|
    ensures NoDups(s[k..])
  {
    if k < |s| {
      NoDupsFrom(s[..|s| - 1], k);
      assert s[k..][..|s| - k - 1] == s[..|s| - 1][k..];
      if s[|s| - 1] in s[..|s| - 1][k..] { assert false; }
    }
  }

  lemma {:induction false} RecencyNoDups(history: seq<nat>)
    ensures NoDups(Recency(history))
  {
    if history != [] {
      var before, last := history[..|history| - 1], history[|history| - 1];
      RecencyNoDups(before);
      WithoutNoDups(Recency(before), last);
      WithoutMember(Recency(before), last, last);
      assert Recency(history)[..|Recency(history)| - 1] == Without(Recency(before), last);
    }
  }

  /** Every index of the history is in it. */
  lemma {:induction false} RecencyMember(history: seq<nat>, x: nat)
    ensures x in Recency(history) <==> x in history
  {
    if history != [] {
      var before, last := history[..|history| - 1], history[|history| - 1];
      RecencyMember(before, x);
      WithoutMember(Recency(before), last, x);
      assert history == before + [last];
    }
  }

  /** The recency list is ordered by last use. */
  lemma {:induction false} RecencyIsByLastUse(history: seq<nat>, i: nat, j: nat)
    requires i < j < |Recency(history)|
    ensures Recency(history)[i] in history && Recency(history)[j] in history
    ensures LastUse(history, Recency(history)[i]) < LastUse(history, Recency(history)[j])
  {
    var before, last := history[..|history| - 1], history[|history| - 1];
    var r := Recency(before);
    var w := Without(r, last);
    RecencyMember(history, Recency(history)[i]);
    RecencyMember(history, Recency(history)[j]);
    WithoutMember(r, last, w[i]);
    RecencyMember(before, w[i]);
    LastUseBound(before, w[i]);
    if j < |w| {
      WithoutMember(r, last, w[j]);
      var i', j' := WithoutKeepsOrder(r, last, i, j);
      RecencyIsByLastUse(before, i', j');
    }
  }

  lemma {:induction false} LastUseBound(history: seq<nat>, x: nat)
    requires x in history
    ensures LastUse(history, x) < |history| && history[LastUse(history, x)] == x
  {
    if history[|history| - 1] != x {
      assert history == history[..|history| - 1] + [history[|history| - 1]];
      LastUseBound(history[..|history| - 1], x);
    }
  }

  lemma {:induction false} WithoutKeepsOrder(s: seq<nat>, x: nat, i: nat, j: nat) returns (i': nat, j': nat)
    requires i < j < |Without(s, x)|
    ensures i' < j' < |s| && s[i'] == Without(s, x)[i] && s[j'] == Without(s, x)[j]
  {
    var front, last := s[..|s| - 1], s[|s| - 1];
    var w := Without(front, x);
    if j < |w| {
      i', j' := WithoutKeepsOrder(front, x, i, j);
    } else {
      assert w[i] in w;
      WithoutMember(front, x, w[i]);
      i' :| 0 <= i' < |front| && front[i'] == w[i];
      j' := |s| - 1;
    }
  }

  lemma KeptNoDups(history: seq<nat>, n: nat)
    ensures NoDups(LastN(Recency(history), n))
  {
    hide Recency, NoDups;
    RecencyNoDups(history);
    var r := Recency(history);
    if |r| > n { NoDupsFrom(r, |r| - n); }
  }

  /** Using an index that is kept moves it to the end of what is kept. */
  lemma KeptAfterHit(history: seq<nat>, pos: nat, n: nat)
    requires n > 0 && pos < |LastN(Recency(history), n)|
    ensures var kept := LastN(Recency(history), n);
            LastN(Recency(history + [kept[pos]]), n) == kept[..pos] + kept[pos + 1..] + [kept[pos]]
  {
    hide Without, NoDups;
    var r := Recency(history);
    var kept := LastN(r, n);
    var x := kept[pos];
    assert (history + [x])[..|history|] == history;
    assert Recency(history + [x]) == Without(r, x) + [x];
    hide Recency;
    var d := |r| - |kept|;
    KeptNoDups(history, n);
    WithoutAt(kept, pos);
    RecencyNoDups(history);
    forall i | 0 <= i < d ensures r[..d][i] != x {
      NoDupsApart(r, i, d + pos);
    }
    WithoutAbsent(r[..d], x);
    assert r == r[..d] + kept;
    WithoutConcat(r[..d], kept, x);
    LastNConcat(r[..d], Without(kept, x) + [x], n);
    ConcatIsAssociative(r[..d], Without(kept, x), [x]);
  }

  lemma LastNConcat(a: seq<nat>, b: seq<nat>, n: nat)
    requires |b| <= n && (a == [] || |b| == n)
    ensures LastN(a + b, n) == b
  {
  }

  /** Using one that is not kept adds it, in place of the least recent when there is no room. */
  lemma KeptAfterMiss(history: seq<nat>, x: nat, n: nat)
    requires n > 0 && x !in LastN(Recency(history), n)
    ensures var kept := LastN(Recency(history), n);
            LastN(Recency(history + [x]), n) == (if |kept| == n then kept[1..] else kept) + [x]
  {
    hide Without, NoDups;
    var r := Recency(history);
    assert (history + [x])[..|history|] == history;
    assert Recency(history + [x]) == Without(r, x) + [x];
    hide Recency;
    var kept := LastN(r, n);
    var d := |r| - |kept|;
    assert r == r[..d] + kept;
    WithoutConcat(r[..d], kept, x);
    WithoutAbsent(kept, x);
    if d > 0 {
      assert Without(r, x) + [x] == Without(r[..d], x) + kept[..1] + (kept[1..] + [x]);
    } else {
      assert r == kept && Without(r, x) == r;
    }
  }

  lemma MovedMembers(s: seq<nat>, pos: nat, x: nat)
    requires pos < |s|
    ensures x in s[..pos] + s[pos + 1..] + [s[pos]] <==> x in s
  {
    assert s == s[..pos] + [s[pos]] + s[pos + 1..];
  }

  lemma EvictedMembers(s: seq<nat>, x: nat)
    requires NoDups(s) && s != []
    ensures x in s[1..] <==> x in s && x != s[0]
  {
    hide NoDups;
    assert s == [s[0]] + s[1..];
    if x in s[1..] {
      var i :| 0 <= i < |s| - 1 && s[1..][i] == x;
      NoDupsApart(s, 0, i + 1);
    }
  }

  // ---------------------------------------------------------------- the cache

  class ChunkCache {
    var chunks: map<nat, Chunk>
    var order: seq<nat>
    const capacity: nat
    /** Every index that was found, or put in, so far. */
    ghost var history: seq<nat>

    /** The cache holds the `capacity` most recently used indices, oldest first. */
    ghost predicate Valid()
      reads this
    {
      && capacity >= 1
      && order == LastN(Recency(history), capacity)
      && (forall i :: i in chunks <==> i in order)
    }

    /** What it holds is true: index `i` has piece `i`. */
    ghost predicate Holds(pieces: seq<Chunk>)
      reads this
    {
      forall i :: i in chunks ==> i < |pieces| && chunks[i] == pieces[i]
    }

    constructor (capacity: nat)
      ensures Valid() && chunks == map[] && history == []
      ensures this.capacity == if capacity == 0 then 1 else capacity
    {
      this.capacity := if capacity == 0 then 1 else capacity;
      chunks, order, history := map[], [], [];
    }

    method Get(idx: nat) returns (value: Option<Chunk>)
      requires Valid()
      modifies this
      ensures Valid() && chunks == old(chunks)
      ensures value == if idx in chunks then Some(chunks[idx]) else None
      ensures history == if idx in chunks then old(history) + [idx] else old(history)
    {
      if idx !in chunks {
        return None;
      }
      hide Recency, LastN;
      value := Some(chunks[idx]);
      ghost var before := order;
      var pos := Position(order, idx);
      if pos.Some? {
        KeptAfterHit(history, pos.value, capacity);
        order := order[..pos.value] + order[pos.value + 1..];
      }
      order := order + [idx];
      forall i ensures i in order <==> i in before {
        MovedMembers(before, pos.value, i);
      }
      history := history + [idx];
    }

    method Insert(idx: nat, value: Chunk)
      requires Valid()
      modifies this
      ensures Valid()
      ensures idx in old(chunks) ==> chunks == old(chunks) && history == old(history)
      ensures idx !in old(chunks) ==>
                && history == old(history) + [idx]
                && chunks == (if |old(order)| < capacity then old(chunks) else old(chunks) - {old(order)[0]})[idx := value]
    {
      if idx in chunks {
        return;
      }
      ghost var kept := order;
      KeptAfterMiss(history, idx, capacity);
      KeptNoDups(history, capacity);
      assert |kept| <= capacity;
      hide Recency, LastN, NoDups;
      MakeRoom();
      forall i ensures i in chunks <==> i in order {
        if order != kept { EvictedMembers(kept, i); }
      }
      order := order + [idx];
      chunks := chunks[idx := value];
      history := history + [idx];
    }

    /** The loop of `insert`: the oldest go until there is room for one more. */
    method MakeRoom()
      requires 1 <= capacity && |order| <= capacity
      modifies this`order, this`chunks
      ensures order == if |old(order)| < capacity then old(order) else old(order)[1..]
      ensures chunks == if |old(order)| < capacity then old(chunks) else old(chunks) - {old(order)[0]}
    {
      while |order| >= capacity && |order| > 0
        invariant |order| >= capacity ==> order == old(order) && chunks == old(chunks)
        invariant |order| < capacity ==>
                    && order == (if |old(order)| < capacity then old(order) else old(order)[1..])
                    && chunks == (if |old(order)| < capacity then old(chunks) else old(chunks) - {old(order)[0]})
      {
        var evict := order[0];
        order := order[1..];
        chunks := chunks - {evict};
      }
    }
  }

  /** The first place of `x`. */
  function Position(s: seq<nat>, x: nat): (pos: Option<nat>)
    ensures pos.Some? <==> x in s
    ensures pos.Some? ==> pos.value < |s| && s[pos.value] == x
  {
    if s == [] then None
    else if s[0] == x then Some(0)
    else
      var rest := Position(s[1..], x);
      if rest.Some? then Some(rest.value + 1) else None
  }

  // ---------------------------------------------------------------- the flat archive

  function Start(pieces: seq<Chunk>, i: nat): nat
    requires i <= |pieces|
  {
    |Concat(pieces[..i])|
  }

  /** The ends are the running totals of the lengths of the pieces. */
  ghost predicate Indexes(ends: seq<nat>, pieces: seq<Chunk>) {
    |ends| == |pieces| && forall i :: 0 <= i < |ends| ==> ends[i] == Start(pieces, i + 1)
  }

  /** Piece `i` stands in the archive between its bounds. */
  lemma PieceInPlace(pieces: seq<Chunk>, i: nat)
    requires i < |pieces|
    ensures Start(pieces, i) <= Start(pieces, i + 1) <= |Concat(pieces)|
    ensures Concat(pieces)[Start(pieces, i)..Start(pieces, i + 1)] == pieces[i]
  {
    ConcatNext(pieces, i);
    PrefixInPlace(pieces, i + 1);
  }

  lemma {:induction false} PrefixInPlace(pieces: seq<Chunk>, n: nat)
    requires n <= |pieces|
    ensures Concat(pieces[..n]) <= Concat(pieces)
    decreases |pieces| - n
  {
    if n < |pieces| {
      ConcatNext(pieces, n);
      PrefixInPlace(pieces, n + 1);
    } else {
      assert pieces[..n] == pieces;
    }
  }

  lemma WholeArchive(pieces: seq<Chunk>)
    ensures Start(pieces, |pieces|) == |Concat(pieces)|
  {
    assert pieces[..|pieces|] == pieces;
  }

  /** `partition_point(|end| end <= offset)`: a place where the answer changes, by bisection. */
  method PartitionPoint(ends: seq<nat>, offset: nat) returns (idx: nat)
    ensures idx <= |ends|
    ensures idx > 0 ==> ends[idx - 1] <= offset
    ensures idx < |ends| ==> offset < ends[idx]
  {
    idx := 0;
    var hi := |ends|;
    while idx < hi
      invariant idx <= hi <= |ends|
      invariant idx > 0 ==> ends[idx - 1] <= offset
      invariant hi < |ends| ==> offset < ends[hi]
    {
      var mid := (idx + hi) / 2;
      if ends[mid] <= offset { idx := mid + 1; } else { hi := mid; }
    }
  }

  /** What another task may do to the cache between two of ours. */
  datatype CacheOp = Touch(idx: nat) | Store(idx: nat, chunk: Chunk)

  ghost predicate TrueOps(ops: seq<CacheOp>, pieces: seq<Chunk>) {
    forall op :: op in ops && op.Store? ==> op.idx < |pieces| && op.chunk == pieces[op.idx]
  }

  method Interfere(cache: ChunkCache, ops: seq<CacheOp>, ghost pieces: seq<Chunk>)
    requires cache.Valid() && cache.Holds(pieces) && TrueOps(ops, pieces)
    modifies cache
    ensures cache.Valid() && cache.Holds(pieces)
  {
    for i := 0 to |ops|
      invariant cache.Valid() && cache.Holds(pieces)
    {
      match ops[i] {
        case Touch(idx) =>
          var _ := cache.Get(idx);
        case Store(idx, chunk) =>
          assert ops[i] in ops;
          cache.Insert(idx, chunk);
      }
    }
  }

  /** The end of `read_into`: as much of the chunk, from `within` on, as there is and fits. */
  method CopyPart(buf: array<byte>, chunk: Chunk, within: nat) returns (r: Result<nat>)
    modifies buf
    ensures r.Ok? <==> within <= |chunk|
    ensures r.Ok? ==>
              && r.value == Min(|chunk| - within, buf.Length) && r.value <= buf.Length && within + r.value <= |chunk|
              && buf[..r.value] == chunk[within..within + r.value] && buf[r.value..] == old(buf[r.value..])
    ensures r.Err? ==> buf[..] == old(buf[..])
  {
    var available := if within < |chunk| then |chunk| - within else 0;
    var len := Min(available, buf.Length);
    if within + len > |chunk| {
      return Err("chunk shorter than its index entry");
    }
    var src := chunk[within..within + len];
    forall k | 0 <= k < len {
      buf[k] := src[k];
    }
    assert buf[..len] == src;
    r := Ok(len);
  }

  class ChunkReaderInner {
    const ends: seq<nat>
    const digests: seq<Digest>
    const size: nat
    const cache: ChunkCache
    /** The chunk each digest of the index stands for. */
    ghost const pieces: seq<Chunk>

    ghost predicate Valid()
      reads cache
    {
      |digests| == |ends| == |pieces| && cache.Valid() && cache.Holds(pieces)
    }

    constructor (entries: seq<IndexEntry>, capacity: nat, ghost pieces: seq<Chunk>)
      requires |pieces| == |entries|
      ensures Valid() && fresh(cache) && this.pieces == pieces
      ensures ends == seq(|entries|, i requires 0 <= i < |entries| => entries[i].end)
      ensures size == if entries == [] then 0 else ends[|ends| - 1]
    {
      ends := seq(|entries|, i requires 0 <= i < |entries| => entries[i].end);
      digests := seq(|entries|, i requires 0 <= i < |entries| => entries[i].digest);
      size := if entries == [] then 0 else entries[|entries| - 1].end;
      cache := new ChunkCache(capacity);
      this.pieces := pieces;
    }

    /** A chunk, from the cache or by download; `reply` is what the download gives if it is needed,
        `others` what other tasks do to the cache while it runs. */
    method FetchChunk(idx: nat, reply: Result<Chunk>, others: seq<CacheOp>) returns (r: Result<Chunk>)
      requires Valid() && TrueOps(others, pieces)
      requires reply.Ok? && idx < |pieces| ==> reply.value == pieces[idx]
      modifies cache
      ensures Valid()
      ensures r == if idx < |pieces| && (reply.Ok? || idx in old(cache.chunks)) then Ok(pieces[idx])
                   else if idx < |pieces| then reply
                   else Err("chunk index out of range")
    {
      var cached := cache.Get(idx);
      if cached.Some? {
        return Ok(cached.value);
      }
      if idx >= |digests| {
        return Err("chunk index out of range");
      }
      Interfere(cache, others, pieces);
      if reply.Err? {
        return reply;
      }
      cache.Insert(idx, reply.value);
      r := reply;
    }

    /** One read. With an index that tells the truth it is a read of the flat archive: whatever the
        cache holds and other tasks do, it fails only if a download does. With any other index it
        fails or returns, and nothing outside the part it reports is written. */
    method ReadInto(buf: array<byte>, offset: nat, replies: seq<Result<Chunk>>, others: seq<CacheOp>) returns (r: Result<nat>)
      requires Valid() && TrueOps(others, pieces) && TrueReplies(replies, pieces)
      modifies cache, buf
      ensures Valid()
      ensures if r.Ok? then r.value <= buf.Length && buf[r.value..] == old(buf[r.value..]) else buf[..] == old(buf[..])
      ensures Indexes(ends, pieces) && size == |Concat(pieces)| ==>
                if r.Ok? then PxarAccessor.Served(Concat(pieces), offset, buf.Length, buf[..r.value])
                else Err(r.error) in replies
    {
      hide *;
      ghost var truthful := Indexes(ends, pieces) && size == |Concat(pieces)|;
      if buf.Length == 0 || offset >= size {
        if truthful { ServedNothing(Concat(pieces), offset, buf.Length, buf[..0]); }
        return Ok(0);
      }
      var idx := PartitionPoint(ends, offset);
      var chunkStart := if idx > 0 then ends[idx - 1] else 0;
      if truthful { Placed(pieces, ends, idx, offset); }
      ReplyIsTrue(replies, pieces, idx);
      var reply := if idx < |replies| then replies[idx] else Err("");
      ghost var before := buf[..];
      var fetched := FetchChunk(idx, reply, others);
      assert buf[..] == before;
      if fetched.Err? {
        return Err(fetched.error);
      }
      r := CopyPart(buf, fetched.value, offset - chunkStart);
      if truthful { PieceServes(pieces, idx, offset, buf.Length, buf[..r.value]); }
    }
  }

  lemma ReplyIsTrue(replies: seq<Result<Chunk>>, pieces: seq<Chunk>, idx: nat)
    requires TrueReplies(replies, pieces)
    ensures |replies| == |pieces|
    ensures idx < |replies| ==> replies[idx] in replies && (replies[idx].Ok? ==> replies[idx].value == pieces[idx])
  {
  }

  /** An exact read over the cached reader, in as many rounds as it takes: what slicing the archive gives,
      or the failure of a download. `downloads` and `others` are those of each round. */
  method ReadExactThrough(inner: ChunkReaderInner, start: nat, n: nat,
                          downloads: nat -> seq<Result<Chunk>>, others: nat -> seq<CacheOp>) returns (r: Result<seq<byte>>)
    requires inner.Valid() && Indexes(inner.ends, inner.pieces) && inner.size == |Concat(inner.pieces)|
    requires forall i :: TrueReplies(downloads(i), inner.pieces) && TrueOps(others(i), inner.pieces)
    modifies inner.cache
    ensures inner.Valid()
    ensures r == PxarFormat.ReadBytes(Concat(inner.pieces), start, n) || (r.Err? && exists i :: Err(r.error) in downloads(i))
  {
    hide *;
    ghost var all := Concat(inner.pieces);
    var buf: seq<byte> := [];
    var round: nat := 0;
    while |buf| < n
      invariant inner.Valid() && |buf| <= n
      invariant buf != [] ==> start + |buf| <= |all| && buf == all[start..start + |buf|]
      decreases n - |buf|
    {
      var rest := new byte[n - |buf|];
      var got := inner.ReadInto(rest, start + |buf|, downloads(round), others(round));
      if got.Err? {
        return Err(got.error);
      }
      if got.value == 0 {
        assert rest[..0] == [];
        NothingServed(all, start, n, buf);
        return Err("pxar: unexpected EOF");
      }
      ServedExtends(all, start, buf, n - |buf|, rest[..got.value]);
      buf := buf + rest[..got.value];
      round := round + 1;
    }
    AllServed(all, start, n, buf);
    r := Ok(buf);
  }

  lemma NothingServed(all: seq<byte>, start: nat, n: nat, buf: seq<byte>)
    requires |buf| < n && PxarAccessor.Served(all, start + |buf|, n - |buf|, [])
    ensures PxarFormat.ReadBytes(all, start, n) == Err("pxar: unexpected EOF")
  {
  }

  lemma AllServed(all: seq<byte>, start: nat, n: nat, buf: seq<byte>)
    requires |buf| == n && (buf != [] ==> start + |buf| <= |all| && buf == all[start..start + |buf|])
    ensures PxarFormat.ReadBytes(all, start, n) == Ok(buf)
  {
  }

  lemma ServedExtends(all: seq<byte>, start: nat, buf: seq<byte>, want: nat, more: seq<byte>)
    requires buf != [] ==> start + |buf| <= |all| && buf == all[start..start + |buf|]
    requires PxarAccessor.Served(all, start + |buf|, want, more) && more != []
    ensures start + |buf + more| <= |all| && buf + more == all[start..start + |buf + more|]
  {
    var from := start + |buf|;
    assert all[start..from + |more|] == all[start..from] + all[from..from + |more|];
    assert all[start..start] == [];
  }

  /** Downloads may fail, but what they give is the chunk asked for. */
  ghost predicate TrueReplies(replies: seq<Result<Chunk>>, pieces: seq<Chunk>) {
    |replies| == |pieces| && forall i :: 0 <= i < |replies| && replies[i].Ok? ==> replies[i].value == pieces[i]
  }

  /** The piece that the bisection of a truthful index finds covers the offset. */
  lemma Placed(pieces: seq<Chunk>, ends: seq<nat>, idx: nat, offset: nat)
    requires Indexes(ends, pieces) && offset < |Concat(pieces)| && idx <= |ends|
    requires idx > 0 ==> ends[idx - 1] <= offset
    requires idx < |ends| ==> offset < ends[idx]
    ensures idx < |pieces| && (if idx > 0 then ends[idx - 1] else 0) == Start(pieces, idx)
    ensures Start(pieces, idx) <= offset < Start(pieces, idx) + |pieces[idx]|
  {
    WholeArchive(pieces);
    if idx < |pieces| { PieceInPlace(pieces, idx); }
  }

  lemma ServedNothing(data: seq<byte>, offset: nat, want: nat, chunk: seq<byte>)
    requires chunk == [] && (want == 0 || offset >= |data|)
    ensures PxarAccessor.Served(data, offset, want, chunk)
  {
  }

  /** What is copied out of the piece is a read of the archive, and not an empty one. */
  lemma PieceServes(pieces: seq<Chunk>, i: nat, offset: nat, want: nat, src: seq<byte>)
    requires i < |pieces| && Start(pieces, i) <= offset < Start(pieces, i) + |pieces[i]| && want > 0
    requires var within := offset - Start(pieces, i);
             |src| == Min(|pieces[i]| - within, want) && src == pieces[i][within..within + |src|]
    ensures PxarAccessor.Served(Concat(pieces), offset, want, src)
  {
    hide Concat, Start;
    SliceInPiece(pieces, i, offset - Start(pieces, i), |src|);
  }

  lemma StartNext(pieces: seq<Chunk>, i: nat)
    requires i < |pieces|
    ensures Start(pieces, i + 1) == Start(pieces, i) + |pieces[i]|
  {
    ConcatNext(pieces, i);
  }

  lemma SliceInPiece(pieces: seq<Chunk>, i: nat, within: nat, len: nat)
    requires i < |pieces| && within + len <= |pieces[i]|
    ensures Start(pieces, i) + within + len <= |Concat(pieces)|
    ensures Concat(pieces)[Start(pieces, i) + within..Start(pieces, i) + within + len] == pieces[i][within..within + len]
  {
    hide Concat;
    PieceInPlace(pieces, i);
    StartNext(pieces, i);
    SliceOfSlice(Concat(pieces), Start(pieces, i), Start(pieces, i + 1), within, within + len);
  }
}
