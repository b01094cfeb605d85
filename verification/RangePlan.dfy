/** The option checks and the range planner of the parallel downloader. */
module RangePlan {
  import opened Wrappers
  import opened Decimal

  type byte = x: int | 0 <= x < 256

  const MIN_CHUNK_BYTES: nat := 64 * 1024
  const MAX_CONNECTIONS: nat := 256

  datatype Options = Options(
    connections: nat,
    windowBytes: nat,
    maxRetries: nat,
    idleTimeout: nat,
    retryBaseDelay: nat)

  datatype OptionError = NoConnections | TooManyConnections | WindowTooSmall | NoIdleTimeout

  function Validate(o: Options): (r: Result<(), OptionError>) {
    if o.connections == 0 then Err(NoConnections)
    else if o.connections > MAX_CONNECTIONS then Err(TooManyConnections)
    else if o.windowBytes / o.connections < MIN_CHUNK_BYTES then Err(WindowTooSmall)
    else if o.idleTimeout == 0 then Err(NoIdleTimeout)
    else Ok(())
  }

  function ChunkBytes(o: Options): nat
    requires o.connections > 0
  {
    o.windowBytes / o.connections
  }

  /** Options are accepted exactly with 1 to 256 connections, at least 64 KiB of window for each, and an idle timeout;
      the first of these that fails is the one reported. */
  lemma ValidateExactly(o: Options)
    ensures Validate(o) == Err(NoConnections) <==> o.connections == 0
    ensures Validate(o) == Err(TooManyConnections) <==> o.connections > 256
    ensures Validate(o) == Err(WindowTooSmall) <==> 1 <= o.connections <= 256 && o.windowBytes < o.connections * 65536
    ensures Validate(o) == Err(NoIdleTimeout) <==>
      1 <= o.connections <= 256 && o.windowBytes >= o.connections * 65536 && o.idleTimeout == 0
    ensures Validate(o) == Ok(()) <==>
      1 <= o.connections <= 256 && o.windowBytes >= o.connections * 65536 && o.idleTimeout > 0
  {
    if o.connections > 0 {
      QuotientReaches(o.windowBytes, o.connections, 65536);
    }
  }

  lemma QuotientReaches(w: nat, n: nat, k: nat)
    requires n > 0
    ensures w / n >= k <==> w >= n * k
  {
    var q := w / n;
    assert w == n * q + w % n;
    if q >= k {
      ProductGrows(n, k, q);
    } else {
      ProductGrows(n, q + 1, k);
      assert n * (q + 1) == n * q + n;
    }
  }

  lemma ProductGrows(n: nat, a: nat, b: nat)
    requires a <= b
    ensures n * a <= n * b
  {
  }

  /** What an accepted option set guarantees: `connections` whole chunks fit in the window. */
  lemma ValidOptionsFillTheWindow(o: Options)
    requires Validate(o).Ok?
    ensures 1 <= o.connections <= MAX_CONNECTIONS && o.idleTimeout > 0
    ensures ChunkBytes(o) >= MIN_CHUNK_BYTES
    ensures o.connections * ChunkBytes(o) <= o.windowBytes < o.connections * (ChunkBytes(o) + 1)
  {
    var n, w := o.connections, o.windowBytes;
    assert w == n * (w / n) + w % n;
    assert n * (w / n + 1) == n * (w / n) + n;
  }

  /** An inclusive byte range. */
  datatype Range = Range(start: nat, end: nat) {
    function Len(): int { end - start + 1 }
  }

  /** The bytes of `obj` that `r` names. */
  function Slice(obj: seq<byte>, r: Range): seq<byte>
    requires r.start <= r.end < |obj|
  {
    obj[r.start..r.end + 1]
  }

  /** A gap-free in-order cover of `0..total` in which every range but the last has `chunk` bytes. */
  ghost predicate Tiles(ranges: seq<Range>, total: nat, chunk: nat) {
    && (total == 0 <==> ranges == [])
    && (ranges != [] ==> ranges[0].start == 0 && ranges[|ranges| - 1].end == total - 1)
    && (forall k :: 0 <= k < |ranges| ==> ranges[k].start <= ranges[k].end < total && ranges[k].Len() <= chunk)
    && (forall k :: 0 < k < |ranges| ==> ranges[k].start == ranges[k - 1].end + 1)
    && (forall k :: 0 <= k < |ranges| - 1 ==> ranges[k].Len() == chunk)
  }

  function SaturatingAdd(a: nat, b: nat): nat {
    if a + b > U64_MAX then U64_MAX else a + b
  }

  method PlanRanges(totalBytes: nat, chunkBytes: nat) returns (ranges: seq<Range>)
    requires totalBytes <= U64_MAX
    requires 0 < chunkBytes <= U64_MAX
    ensures Tiles(ranges, totalBytes, chunkBytes)
  {
    ranges := [];
    var start := 0;
    while start < totalBytes
      invariant start <= totalBytes
      invariant Tiles(ranges, start, chunkBytes)
      invariant start < totalBytes ==> LastIsFull(ranges, chunkBytes)
    {
      var last := SaturatingAdd(start, chunkBytes - 1);
      var end := if last < totalBytes - 1 then last else totalBytes - 1;
      TilesAppend(ranges, start, chunkBytes, end);
      ranges := ranges + [Range(start, end)];
      start := end + 1;
    }
  }

  ghost predicate LastIsFull(ranges: seq<Range>, chunk: nat) {
    ranges != [] ==> ranges[|ranges| - 1].Len() == chunk
  }

  lemma TilesAppend(ranges: seq<Range>, start: nat, chunk: nat, end: nat)
    requires Tiles(ranges, start, chunk) && LastIsFull(ranges, chunk) && start <= end < start + chunk
    ensures Tiles(ranges + [Range(start, end)], end + 1, chunk)
  {
  }

  /** The plan is determined by its tiling property: range `k` starts at `k * chunk`. */
  lemma {:induction false} TileStart(ranges: seq<Range>, total: nat, chunk: nat, k: nat)
    requires Tiles(ranges, total, chunk) && k < |ranges|
    ensures ranges[k].start == k * chunk
    ensures ranges[k].end == if k == |ranges| - 1 then total - 1 else (k + 1) * chunk - 1
  {
    if k > 0 {
      TileStart(ranges, total, chunk, k - 1);
    }
    assert (k + 1) * chunk == k * chunk + chunk;
  }

  lemma CountBound(a: int, b: int, total: nat, chunk: nat)
    requires 0 < chunk && (a - 1) * chunk < total <= b * chunk
    ensures a <= b
  {
  }

  lemma TilingIsUnique(r1: seq<Range>, r2: seq<Range>, total: nat, chunk: nat)
    requires chunk > 0 && Tiles(r1, total, chunk) && Tiles(r2, total, chunk)
    ensures r1 == r2
  {
    if r1 != [] {
      assert |r1| == |r2| by {
        TileCount(r1, total, chunk);
        TileCount(r2, total, chunk);
        CountBound(|r1|, |r2|, total, chunk);
        CountBound(|r2|, |r1|, total, chunk);
      }
      TilingsAgree(r1, r2, total, chunk);
    }
  }

  lemma TilingsAgree(r1: seq<Range>, r2: seq<Range>, total: nat, chunk: nat)
    requires Tiles(r1, total, chunk) && Tiles(r2, total, chunk) && |r1| == |r2|
    ensures r1 == r2
  {
    forall k | 0 <= k < |r1| ensures r1[k] == r2[k] {
      TileStart(r1, total, chunk, k);
      TileStart(r2, total, chunk, k);
    }
  }

  /** The number of ranges is the rounded-up quotient of the object by the chunk. */
  lemma TileCount(ranges: seq<Range>, total: nat, chunk: nat)
    requires Tiles(ranges, total, chunk) && ranges != []
    ensures (|ranges| - 1) * chunk < total <= |ranges| * chunk
  {
    var n := |ranges|;
    TileStart(ranges, total, chunk, n - 1);
    assert n * chunk == (n - 1) * chunk + chunk;
  }

  /** The slices of the first `n` ranges, in order. */
  ghost function Joined(obj: seq<byte>, ranges: seq<Range>, n: nat): seq<byte>
    requires n <= |ranges|
    requires forall k :: 0 <= k < |ranges| ==> ranges[k].start <= ranges[k].end < |obj|
  {
    if n == 0 then [] else Joined(obj, ranges, n - 1) + Slice(obj, ranges[n - 1])
  }

  /** Writing the planned slices in order writes the object, whatever its size and the chunk. */
  lemma {:induction false} JoinedIsPrefix(obj: seq<byte>, ranges: seq<Range>, chunk: nat, n: nat)
    requires Tiles(ranges, |obj|, chunk) && n <= |ranges|
    ensures Joined(obj, ranges, n) == obj[..if n == 0 then 0 else ranges[n - 1].end + 1]
  {
    if n > 0 {
      JoinedIsPrefix(obj, ranges, chunk, n - 1);
    }
  }

  lemma PlanReassembles(obj: seq<byte>, ranges: seq<Range>, chunk: nat)
    requires Tiles(ranges, |obj|, chunk)
    ensures Joined(obj, ranges, |ranges|) == obj
  {
    JoinedIsPrefix(obj, ranges, chunk, |ranges|);
  }
}
