/** Cutting a byte string into frame payloads. */
module Chunking {
  import opened Bytes

  /** The largest payload that fits a padded frame: 1460 - 16 (tag) - 2 (length). */
  const MAX_CHUNK: nat := 1442

  function Chunk(p: Bytes): (c: Bytes)
    ensures c <= p && |c| <= MAX_CHUNK
    ensures p != [] ==> c != []
  {
    if |p| > MAX_CHUNK then p[..MAX_CHUNK] else p
  }

  function Chunks(p: Bytes): seq<Bytes>
    decreases |p|
  {
    if p == [] then [] else [Chunk(p)] + Chunks(p[|Chunk(p)|..])
  }

  /** Chunking loses and reorders nothing. */
  lemma {:induction false} ConcatOfChunks(p: Bytes)
    ensures Concat(Chunks(p)) == p
    decreases |p|
  {
    if p != [] {
      var chunk, rest := Chunk(p), p[|Chunk(p)|..];
      ConcatOfChunks(rest);
      hide Chunk;
      var tail := Chunks(rest);
      assert Chunks(p) == [chunk] + tail;
      ConcatOfCons(chunk, tail);
      assert p == chunk + rest;
    }
  }

  /** How many chunks there are and how long each is: all full but the last. */
  lemma {:induction false} ChunkLengths(p: Bytes, i: nat)
    requires i < |Chunks(p)|
    ensures p != [] && |Chunks(p)| == (|p| - 1) / 1442 + 1
    ensures |Chunks(p)[i]| == if i + 1 < |Chunks(p)| then 1442 else |p| - i * 1442
    decreases |p|
  {
    if |p| > MAX_CHUNK {
      var rest := p[MAX_CHUNK..];
      assert Chunks(p) == [Chunk(p)] + Chunks(rest);
      assert |Chunks(rest)| > 0;
      ChunkLengths(rest, if i > 0 then i - 1 else 0);
    } else {
      assert Chunks(p) == [p] + Chunks([]);
    }
  }

  /** The chunks of several calls, one call after the other. */
  function AllChunks(calls: seq<Bytes>): seq<Bytes>
  {
    if calls == [] then [] else AllChunks(calls[..|calls| - 1]) + Chunks(calls[|calls| - 1])
  }

  lemma {:induction false} ConcatOfAllChunks(calls: seq<Bytes>)
    ensures Concat(AllChunks(calls)) == Concat(calls)
  {
    hide Concat, Chunks;
    if calls == [] {
      assert AllChunks(calls) == calls;
    } else {
      var before, last := calls[..|calls| - 1], calls[|calls| - 1];
      var chunks := AllChunks(before);
      ConcatOfAllChunks(before);
      assert Concat(AllChunks(calls)) == Concat(before) + last by {
        ConcatOfChunks(last);
        ConcatOfSum(chunks, Chunks(last));
      }
      assert calls == before + [last];
      ConcatOfSnoc(before, last);
    }
  }
}
