/** A range of a disk behind the block cache: cached, batched and unaligned reads, and writes. */
module BlockRanges {
  import opened Common
  import opened BlockCaches
  import opened VirtioBlocks

  const READ_AHEAD_BLOCKS: nat := 16

  /** The absolute position of a request, unless it overflows or leaves the range. */
  function CheckedAbsRange(start: nat, limit: Option<nat>, offset: nat, len: nat): (r: Option<nat>)
    ensures r.Some? <==>
              && offset + len < USIZE_LIMIT && start + offset < USIZE_LIMIT
              && (limit.Some? ==> offset + len <= limit.value)
    ensures r.Some? ==> r.value == start + offset
  {
    if offset + len >= USIZE_LIMIT then None
    else if limit.Some? && offset + len > limit.value then None
    else if start + offset >= USIZE_LIMIT then None
    else Some(start + offset)
  }

  /** The request is inside the range and inside the device. */
  predicate Readable(disk: seq<Byte>, start: nat, limit: Option<nat>, offset: nat, len: nat) {
    CheckedAbsRange(start, limit, offset, len).Some? && start + offset + len <= |disk|
  }

  function Slice(disk: seq<Byte>, at: nat, len: nat): (r: seq<Byte>)
    requires at + len <= |disk|
    ensures |r| == len
  {
    disk[at..at + len]
  }

  /** What a block reads as: its bytes, or zeros when it is not readable. */
  function View(disk: seq<Byte>, start: nat, limit: Option<nat>, block: nat): (r: seq<Byte>)
    ensures |r| == BLOCK_SIZE
  {
    if Readable(disk, start, limit, block, BLOCK_SIZE) then Slice(disk, start + block, BLOCK_SIZE)
        else Zeros(BLOCK_SIZE)
  }

  /**
   `bytes` are the bytes [from, to) of the block at `k` on the device if it has been reached, is inside the length of
   the range when there is one, and is on the device; otherwise they are zeros.
   */
  ghost predicate Shows(disk: seq<Byte>, start: nat, limit: Option<nat>, k: nat, reached: bool, from: nat, to: nat,
                        bytes: seq<Byte>)
    requires from <= to <= BLOCK_SIZE
  {
    if reached && (limit.Some? ==> k + BLOCK_SIZE <= limit.value) && start + k + BLOCK_SIZE <= |disk|
    then bytes == disk[start + k + from..start + k + to]
    else |bytes| == to - from && forall i :: 0 <= i < to - from ==> bytes[i] == 0
  }

  lemma ViewShows(disk: seq<Byte>, start: nat, limit: Option<nat>, k: nat, from: nat, to: nat)
    requires |disk| < USIZE_LIMIT && from <= to <= BLOCK_SIZE
    ensures Shows(disk, start, limit, k, true, from, to, View(disk, start, limit, k)[from..to])
    ensures Shows(disk, start, limit, k, false, from, to, Zeros(BLOCK_SIZE)[from..to])
    ensures !Readable(disk, start, limit, k, BLOCK_SIZE) ==>
              Shows(disk, start, limit, k, false, from, to, View(disk, start, limit, k)[from..to])
  {
    ZerosAreZero(BLOCK_SIZE);
    if Readable(disk, start, limit, k, BLOCK_SIZE) {
      SliceOfSlice(disk, start + k, start + k + BLOCK_SIZE, from, to - from);
    }
  }

  ghost predicate CoherentGuard(g: Guard, contents: map<nat, seq<Byte>>, disk: seq<Byte>) { g == Key }

  /** Every cached block is readable and equal to the device. */
  ghost predicate Coherent(contents: map<nat, seq<Byte>>, disk: seq<Byte>, start: nat, limit: Option<nat>) {
    forall g :: CoherentGuard(g, contents, disk) ==>
      forall k :: k in contents ==> Fresh(contents[k], disk, start, limit, k)
  }

  /** The data of the block at `k` is what the device holds. */
  predicate Fresh(data: seq<Byte>, disk: seq<Byte>, start: nat, limit: Option<nat>, k: nat) {
    Readable(disk, start, limit, k, BLOCK_SIZE) && data == Slice(disk, start + k, BLOCK_SIZE)
  }

  ghost predicate KeysGuard(g: Guard, contents: map<nat, seq<Byte>>) { g == Key }

  /** Every cached block starts at a multiple of the block size. */
  ghost predicate AlignedKeys(contents: map<nat, seq<Byte>>) {
    forall g :: KeysGuard(g, contents) ==> forall k :: k in contents ==> k % BLOCK_SIZE == 0
  }

  /** A hit returns the bytes of the device. */
  lemma HitIsFresh(contents: map<nat, seq<Byte>>, disk: seq<Byte>, start: nat, limit: Option<nat>, k: nat)
    requires Coherent(contents, disk, start, limit) && k in contents
    ensures Fresh(contents[k], disk, start, limit, k)
    ensures contents[k] == View(disk, start, limit, k)
  {
    assert CoherentGuard(Key, contents, disk);
  }

  /** Each block of a long read is the block of the device. */
  lemma BlockOfRun(disk: seq<Byte>, start: nat, limit: Option<nat>, offset: nat, n: nat, i: nat)
    requires |disk| < USIZE_LIMIT && i < n && Readable(disk, start, limit, offset, n * BLOCK_SIZE)
    ensures Readable(disk, start, limit, offset + i * BLOCK_SIZE, BLOCK_SIZE)
    ensures i * BLOCK_SIZE + BLOCK_SIZE <= n * BLOCK_SIZE
    ensures Slice(disk, start + offset, n * BLOCK_SIZE)[i * BLOCK_SIZE..i * BLOCK_SIZE + BLOCK_SIZE]
            == Slice(disk, start + offset + i * BLOCK_SIZE, BLOCK_SIZE)
  {
    var at := start + offset;
    SliceOfSlice(disk, at, at + n * BLOCK_SIZE, i * BLOCK_SIZE, BLOCK_SIZE);
  }

  /** A run of adjacent blocks is readable exactly when its last block is. */
  lemma RunReadable(disk: seq<Byte>, start: nat, limit: Option<nat>, offset: nat, n: nat)
    requires |disk| < USIZE_LIMIT && n > 0
    ensures Readable(disk, start, limit, offset, n * BLOCK_SIZE)
            <==> Readable(disk, start, limit, offset + (n - 1) * BLOCK_SIZE, BLOCK_SIZE)
  {
  }

  lemma CoherentInsert(contents: map<nat, seq<Byte>>, evicted: set<nat>, disk: seq<Byte>, start: nat,
                       limit: Option<nat>, k: nat)
    requires Coherent(contents, disk, start, limit) && Readable(disk, start, limit, k, BLOCK_SIZE)
    ensures Coherent((contents - evicted)[k := Slice(disk, start + k, BLOCK_SIZE)], disk, start, limit)
  {
    assert CoherentGuard(Key, contents, disk);
  }

  lemma AlignedInsert(contents: map<nat, seq<Byte>>, evicted: set<nat>, k: nat, data: seq<Byte>)
    requires AlignedKeys(contents) && k % BLOCK_SIZE == 0
    ensures AlignedKeys((contents - evicted)[k := data])
  {
    assert KeysGuard(Key, contents);
  }

  // ---------------------------------------------------------------- read-ahead

  /** How many blocks a missed read asks the device for. */
  function ReadAheadCount(limit: Option<nat>, offset: nat): (count: nat)
    ensures 1 <= count <= READ_AHEAD_BLOCKS
  {
    var available := if limit.Some? && offset <= limit.value then (limit.value - offset) / BLOCK_SIZE else 1;
    Min(Max(available, 1), READ_AHEAD_BLOCKS)
  }

  /**
   Beyond its first block a read-ahead takes as many of the sixteen blocks as end inside the range, and none when the
   range has no length.
   */
  lemma ReadAheadIs(limit: Option<nat>, offset: nat, n: nat)
    requires 1 < n <= 16
    ensures n <= ReadAheadCount(limit, offset) <==> limit.Some? && offset + n * BLOCK_SIZE <= limit.value
  {
    if limit.Some? && offset <= limit.value {
      var room, q := limit.value - offset, (limit.value - offset) / BLOCK_SIZE;
      assert q * BLOCK_SIZE <= room < (q + 1) * BLOCK_SIZE;
    }
  }

  /** The request of a missed read is inside the range and inside the device. */
  predicate Fetches(disk: seq<Byte>, start: nat, limit: Option<nat>, offset: nat) {
    Readable(disk, start, limit, offset, ReadAheadCount(limit, offset) * BLOCK_SIZE)
  }

  /**
   The request of a missed read succeeds exactly when its first block is readable and its last one is on the
   device.
   */
  lemma ReadAheadFitsIff(disk: seq<Byte>, start: nat, limit: Option<nat>, offset: nat)
    requires |disk| < USIZE_LIMIT
    ensures Fetches(disk, start, limit, offset)
       <==> Readable(disk, start, limit, offset, BLOCK_SIZE)
            && start + offset + ReadAheadCount(limit, offset) * BLOCK_SIZE <= |disk|
  {
  }

  /** A range that ends past the device: its first block is readable, but a missed read of it fails and gives zeros. */
  lemma RangePastTheDevice()
    ensures var disk: seq<Byte>, limit := seq(2 * BLOCK_SIZE, _ => 7), Some(16 * BLOCK_SIZE);
            && Readable(disk, 0, limit, 0, BLOCK_SIZE) && !Fetches(disk, 0, limit, 0)
            && BlockRead(map[], disk, 0, limit, 0) == Zeros(BLOCK_SIZE) != View(disk, 0, limit, 0)
  {
    var disk: seq<Byte>, limit := seq(2 * BLOCK_SIZE, _ => 7), Some(16 * BLOCK_SIZE);
    assert ReadAheadCount(limit, 0) == 16;
    assert View(disk, 0, limit, 0)[0] == 7;
  }

  /**
   A cached read of the block at `k` gives what the device holds: it is cached, or not readable at all, or the
   blocks read ahead end on the device.
   */
  predicate Served(contents: map<nat, seq<Byte>>, disk: seq<Byte>, start: nat, limit: Option<nat>, k: nat) {
    || k in contents
    || !Readable(disk, start, limit, k, BLOCK_SIZE)
    || start + k + ReadAheadCount(limit, k) * BLOCK_SIZE <= |disk|
  }

  /** What a cached read of the block at `k` returns on a healthy device. */
  function BlockRead(contents: map<nat, seq<Byte>>, disk: seq<Byte>, start: nat, limit: Option<nat>,
                     k: nat): (r: seq<Byte>)
    ensures |r| == BLOCK_SIZE
  {
    if Served(contents, disk, start, limit, k) then View(disk, start, limit, k) else Zeros(BLOCK_SIZE)
  }

  /** The blocks read ahead of `k` are cached. */
  ghost predicate RunCached(contents: map<nat, seq<Byte>>, k: nat, count: nat) {
    forall j: nat :: j < count ==> InRun(contents, k, j)
  }

  ghost predicate InRun(contents: map<nat, seq<Byte>>, k: nat, j: nat) {
    k + j * BLOCK_SIZE in contents
  }

  /** What a cached read of the block at `k` returns and what it does to the cache. */
  ghost predicate ReadResult(contents: map<nat, seq<Byte>>, after: map<nat, seq<Byte>>, wrapped: bool, healthy: bool,
                             disk: seq<Byte>, start: nat, limit: Option<nat>, k: nat, r: seq<Byte>)
  {
    && |r| == BLOCK_SIZE
    && forall g :: ReadGuard(g, k, r) ==> ReadBody(contents, after, wrapped, healthy, disk, start, limit, k, r)
  }

  ghost predicate ReadGuard(g: Guard, k: nat, r: seq<Byte>) { g == Key }

  ghost predicate ReadBody(contents: map<nat, seq<Byte>>, after: map<nat, seq<Byte>>, wrapped: bool, healthy: bool,
                           disk: seq<Byte>, start: nat, limit: Option<nat>, k: nat, r: seq<Byte>)
  {
    && (healthy ==> r == BlockRead(contents, disk, start, limit, k))
    && (r == View(disk, start, limit, k) || r == Zeros(BLOCK_SIZE))
    && (k in contents || !Fetches(disk, start, limit, k) ==> after == contents)
    && (healthy && !wrapped && k !in contents && Fetches(disk, start, limit, k) ==>
          RunCached(after, k, ReadAheadCount(limit, k)))
  }

  /** The part of the second of two adjacent blocks after the first has been read. */
  function SecondRead(contents: map<nat, seq<Byte>>, disk: seq<Byte>, start: nat, limit: Option<nat>,
                      first: nat): (r: seq<Byte>)
    ensures |r| == BLOCK_SIZE
  {
    var second := first + BLOCK_SIZE;
    if Served(contents, disk, start, limit, second)
        || (first !in contents && Served(contents, disk, start, limit, first))
    then View(disk, start, limit, second) else Zeros(BLOCK_SIZE)
  }

  /** A first read that had to fetch leaves the second block in the cache, or it was the last one of the range. */
  lemma SecondIs(contents: map<nat, seq<Byte>>, after: map<nat, seq<Byte>>, disk: seq<Byte>, start: nat,
                 limit: Option<nat>, first: nat, r: seq<Byte>)
    requires |disk| < USIZE_LIMIT && ReadResult(contents, after, false, true, disk, start, limit, first, r)
    ensures BlockRead(after, disk, start, limit, first + BLOCK_SIZE) == SecondRead(contents, disk, start, limit, first)
  {
    assert ReadGuard(Key, first, r);
    ReadAheadFitsIff(disk, start, limit, first);
    if first !in contents && Fetches(disk, start, limit, first) {
      if ReadAheadCount(limit, first) >= 2 {
        assert InRun(after, first, 1);
      }
    }
  }

  /** The block that holds an offset. */
  function BlockOf(offset: nat): (k: nat)
    ensures k <= offset && offset - k == offset % BLOCK_SIZE && k % BLOCK_SIZE == 0
  {
    offset / BLOCK_SIZE * BLOCK_SIZE
  }

  /** The bytes at an offset, from what its two covering blocks read as. */
  function OffsetRead(contents: map<nat, seq<Byte>>, disk: seq<Byte>, start: nat, limit: Option<nat>,
                      offset: nat): seq<Byte> {
    var skip := offset % BLOCK_SIZE;
    BlockRead(contents, disk, start, limit, BlockOf(offset))[skip..]
    + SecondRead(contents, disk, start, limit, BlockOf(offset))[..skip]
  }

  /** Both covering blocks are served, or the bytes asked of the one that is not are zero. */
  ghost predicate OffsetServed(contents: map<nat, seq<Byte>>, disk: seq<Byte>, start: nat, limit: Option<nat>,
                               offset: nat) {
    var skip, first := offset % BLOCK_SIZE, BlockOf(offset);
    var second := first + BLOCK_SIZE;
    && (Served(contents, disk, start, limit, first)
        || View(disk, start, limit, first)[skip..] == Zeros(BLOCK_SIZE - skip))
    && (|| Served(contents, disk, start, limit, second)
        || (first !in contents && Served(contents, disk, start, limit, first))
        || View(disk, start, limit, second)[..skip] == Zeros(skip))
  }

  /** Both covering blocks are served whatever is cached. */
  predicate AlwaysServed(disk: seq<Byte>, start: nat, limit: Option<nat>, offset: nat) {
    && Served(map[], disk, start, limit, BlockOf(offset))
    && Served(map[], disk, start, limit, BlockOf(offset) + BLOCK_SIZE)
  }

  /** What a read at an offset returns. */
  ghost predicate OffsetResult(contents: map<nat, seq<Byte>>, wrapped: bool, healthy: bool, disk: seq<Byte>, start: nat,
                               limit: Option<nat>, offset: nat, out: seq<Byte>)
  {
    && |out| == BLOCK_SIZE
    && forall g :: OffsetGuard(g, offset, out) ==>
         OffsetBody(contents, wrapped, healthy, disk, start, limit, offset, out)
  }

  ghost predicate OffsetGuard(g: Guard, offset: nat, out: seq<Byte>) { g == Key }

  ghost predicate OffsetBody(contents: map<nat, seq<Byte>>, wrapped: bool, healthy: bool, disk: seq<Byte>, start: nat,
                             limit: Option<nat>, offset: nat, out: seq<Byte>)
    requires |out| == BLOCK_SIZE
  {
    && (healthy && !wrapped ==> out == OffsetRead(contents, disk, start, limit, offset))
    && (healthy && AlwaysServed(disk, start, limit, offset) ==> out == ViewBytes(disk, start, limit, offset))
    && (healthy ==> OffsetHalves(contents, wrapped, disk, start, limit, BlockOf(offset), offset % BLOCK_SIZE, out))
  }

  /** The parts of the two covering blocks. */
  ghost predicate OffsetHalves(contents: map<nat, seq<Byte>>, wrapped: bool, disk: seq<Byte>, start: nat,
                               limit: Option<nat>, first: nat, skip: nat, out: seq<Byte>)
    requires |out| == BLOCK_SIZE && skip <= BLOCK_SIZE
  {
    var second := first + BLOCK_SIZE;
    && out[..BLOCK_SIZE - skip] == BlockRead(contents, disk, start, limit, first)[skip..]
    && (!wrapped ==> out[BLOCK_SIZE - skip..] == SecondRead(contents, disk, start, limit, first)[..skip])
    && (Served(map[], disk, start, limit, second) ==>
          out[BLOCK_SIZE - skip..] == View(disk, start, limit, second)[..skip])
  }

  /** The parts in terms of the device, the length of the range and what was cached. */
  ghost predicate HalvesShow(contents: map<nat, seq<Byte>>, wrapped: bool, disk: seq<Byte>, start: nat,
                             limit: Option<nat>, first: nat, skip: nat, out: seq<Byte>)
    requires |out| == BLOCK_SIZE && skip <= BLOCK_SIZE
  {
    var second := first + BLOCK_SIZE;
    var firstFits := start + first + ReadAheadCount(limit, first) * BLOCK_SIZE <= |disk|;
    var secondFits := start + second + ReadAheadCount(limit, second) * BLOCK_SIZE <= |disk|;
    && Shows(disk, start, limit, first, first in contents || firstFits, skip, BLOCK_SIZE, out[..BLOCK_SIZE - skip])
    && (!wrapped ==>
          Shows(disk, start, limit, second, second in contents || secondFits || (first !in contents && firstFits),
                0, skip, out[BLOCK_SIZE - skip..]))
    && (secondFits ==> Shows(disk, start, limit, second, true, 0, skip, out[BLOCK_SIZE - skip..]))
  }

  /** The covering blocks that are needed are in the range, and the blocks read ahead of them end on the device. */
  ghost predicate Reached(disk: seq<Byte>, start: nat, limit: Option<nat>, first: nat, skip: nat) {
    var second := first + BLOCK_SIZE;
    && start + first + ReadAheadCount(limit, first) * BLOCK_SIZE <= |disk|
    && (limit.Some? ==> second <= limit.value)
    && (skip > 0 ==> && start + second + ReadAheadCount(limit, second) * BLOCK_SIZE <= |disk|
                     && (limit.Some? ==> second + BLOCK_SIZE <= limit.value))
  }

  /** Reached blocks give the bytes at the offset. */
  lemma HalvesJoin(contents: map<nat, seq<Byte>>, wrapped: bool, disk: seq<Byte>, start: nat, limit: Option<nat>,
                   first: nat, skip: nat, out: seq<Byte>)
    requires |out| == BLOCK_SIZE && skip < BLOCK_SIZE && Reached(disk, start, limit, first, skip)
    requires HalvesShow(contents, wrapped, disk, start, limit, first, skip, out)
    ensures start + first + skip + BLOCK_SIZE <= |disk|
    ensures out == disk[start + first + skip..start + first + skip + BLOCK_SIZE]
  {
    var at, cut := start + first + skip, BLOCK_SIZE - skip;
    assert out == out[..cut] + out[cut..];
    if skip > 0 {
      assert out[..cut] == disk[at..at + cut] && out[cut..] == disk[at + cut..at + BLOCK_SIZE];
    } else {
      assert out == out[..cut];
    }
  }

  lemma OffsetShows(contents: map<nat, seq<Byte>>, wrapped: bool, disk: seq<Byte>, start: nat, limit: Option<nat>,
                    first: nat, skip: nat, out: seq<Byte>)
    requires |disk| < USIZE_LIMIT && |out| == BLOCK_SIZE && skip <= BLOCK_SIZE
    requires OffsetHalves(contents, wrapped, disk, start, limit, first, skip, out)
    ensures HalvesShow(contents, wrapped, disk, start, limit, first, skip, out)
  {
    BlockReadShows(contents, disk, start, limit, first, skip);
    SecondReadShows(contents, disk, start, limit, first, skip);
  }

  /** What the result of a read at an offset means to the caller. */
  lemma OffsetMeans(contents: map<nat, seq<Byte>>, wrapped: bool, disk: seq<Byte>, start: nat, limit: Option<nat>,
                    offset: nat, out: seq<Byte>)
    requires |disk| < USIZE_LIMIT && OffsetResult(contents, wrapped, true, disk, start, limit, offset, out)
    ensures HalvesShow(contents, wrapped, disk, start, limit, offset - offset % BLOCK_SIZE, offset % BLOCK_SIZE, out)
    ensures Reached(disk, start, limit, offset - offset % BLOCK_SIZE, offset % BLOCK_SIZE) ==>
              start + offset + BLOCK_SIZE <= |disk| && out == disk[start + offset..start + offset + BLOCK_SIZE]
  {
    assert OffsetGuard(Key, offset, out);
    var first, skip := BlockOf(offset), offset % BLOCK_SIZE;
    OffsetShows(contents, wrapped, disk, start, limit, first, skip, out);
    if Reached(disk, start, limit, first, skip) {
      HalvesJoin(contents, wrapped, disk, start, limit, first, skip, out);
    }
  }

  lemma OffsetExact(contents: map<nat, seq<Byte>>, disk: seq<Byte>, start: nat, limit: Option<nat>, offset: nat,
                    out: seq<Byte>)
    requires OffsetResult(contents, false, true, disk, start, limit, offset, out)
    ensures out == ViewBytes(disk, start, limit, offset) <==> OffsetServed(contents, disk, start, limit, offset)
  {
    assert OffsetGuard(Key, offset, out);
    OffsetReadIsExactIff(contents, disk, start, limit, offset);
  }

  lemma BlockReadShows(contents: map<nat, seq<Byte>>, disk: seq<Byte>, start: nat, limit: Option<nat>, k: nat,
                       skip: nat)
    requires |disk| < USIZE_LIMIT && skip <= BLOCK_SIZE
    ensures Shows(disk, start, limit, k,
                  k in contents || start + k + ReadAheadCount(limit, k) * BLOCK_SIZE <= |disk|, skip, BLOCK_SIZE,
                  BlockRead(contents, disk, start, limit, k)[skip..])
  {
    ViewShows(disk, start, limit, k, skip, BLOCK_SIZE);
    SameTail(View(disk, start, limit, k), skip);
    SameTail(Zeros(BLOCK_SIZE), skip);
  }

  lemma SecondReadShows(contents: map<nat, seq<Byte>>, disk: seq<Byte>, start: nat, limit: Option<nat>, first: nat,
                        skip: nat)
    requires |disk| < USIZE_LIMIT && skip <= BLOCK_SIZE
    ensures var second := first + BLOCK_SIZE;
            var firstFits := start + first + ReadAheadCount(limit, first) * BLOCK_SIZE <= |disk|;
            var secondFits := start + second + ReadAheadCount(limit, second) * BLOCK_SIZE <= |disk|;
            && Shows(disk, start, limit, second,
                     second in contents || secondFits || (first !in contents && firstFits), 0, skip,
                     SecondRead(contents, disk, start, limit, first)[..skip])
            && Shows(disk, start, limit, second, true, 0, skip, View(disk, start, limit, second)[..skip])
  {
    ViewShows(disk, start, limit, first + BLOCK_SIZE, 0, skip);
    SameTail(View(disk, start, limit, first + BLOCK_SIZE), skip);
    SameTail(Zeros(BLOCK_SIZE), skip);
  }

  lemma SameTail(bytes: seq<Byte>, skip: nat)
    requires |bytes| == BLOCK_SIZE && skip <= BLOCK_SIZE
    ensures bytes[skip..BLOCK_SIZE] == bytes[skip..] && bytes[0..skip] == bytes[..skip]
  {
  }

  /** The first covering block has been read into `left` and its part of the result is in place. */
  ghost predicate HalfRead(contents: map<nat, seq<Byte>>, after: map<nat, seq<Byte>>, wrapped: bool, healthy: bool,
                           disk: seq<Byte>, start: nat, limit: Option<nat>, offset: nat, out: seq<Byte>,
                               left: seq<Byte>)
  {
    && ReadResult(contents, after, wrapped, healthy, disk, start, limit, BlockOf(offset), left)
    && out == left[offset % BLOCK_SIZE..] + Zeros(offset % BLOCK_SIZE)
  }

  /** The exact condition under which a read at an offset gives the device bytes. */
  lemma OffsetReadIsExactIff(contents: map<nat, seq<Byte>>, disk: seq<Byte>, start: nat, limit: Option<nat>,
                             offset: nat)
    ensures OffsetRead(contents, disk, start, limit, offset) == ViewBytes(disk, start, limit, offset)
       <==> OffsetServed(contents, disk, start, limit, offset)
  {
    JoinBlocks(disk, start, limit, BlockOf(offset), offset % BLOCK_SIZE);
    var skip, first := offset % BLOCK_SIZE, BlockOf(offset);
    JoinsAgree(BlockRead(contents, disk, start, limit, first), SecondRead(contents, disk, start, limit, first),
               View(disk, start, limit, first), View(disk, start, limit, first + BLOCK_SIZE), skip);
    ZeroParts(skip);
  }

  lemma ZeroParts(skip: nat)
    requires skip <= BLOCK_SIZE
    ensures Zeros(BLOCK_SIZE)[skip..] == Zeros(BLOCK_SIZE - skip) && Zeros(BLOCK_SIZE)[..skip] == Zeros(skip)
  {
  }

  lemma SecondHalf(contents: map<nat, seq<Byte>>, between: map<nat, seq<Byte>>, after: map<nat, seq<Byte>>,
                   wrapped: bool, wrapped': bool, healthy: bool, disk: seq<Byte>, start: nat, limit: Option<nat>,
                   offset: nat, out: seq<Byte>, left: seq<Byte>, right: seq<Byte>)
    requires |disk| < USIZE_LIMIT && (wrapped ==> wrapped')
    requires HalfRead(contents, between, wrapped, healthy, disk, start, limit, offset, out, left)
    requires ReadResult(between, after, wrapped', healthy, disk, start, limit, BlockOf(offset) + BLOCK_SIZE, right)
    ensures OffsetResult(contents, wrapped', healthy, disk, start, limit, offset,
                         Overlay(out, BLOCK_SIZE - offset % BLOCK_SIZE, right[..offset % BLOCK_SIZE]))
  {
    var skip, first := offset % BLOCK_SIZE, BlockOf(offset);
    SecondPiece(left[skip..], right, skip);
    JoinBlocks(disk, start, limit, first, skip);
    if healthy {
      BothReads(contents, between, after, wrapped, wrapped', disk, start, limit, first, left, right);
    }
  }

  /** What the two covering blocks read as, one after the other. */
  lemma BothReads(contents: map<nat, seq<Byte>>, between: map<nat, seq<Byte>>, after: map<nat, seq<Byte>>,
                  wrapped: bool, wrapped': bool, disk: seq<Byte>, start: nat, limit: Option<nat>, first: nat,
                  left: seq<Byte>, right: seq<Byte>)
    requires |disk| < USIZE_LIMIT && (wrapped ==> wrapped')
    requires ReadResult(contents, between, wrapped, true, disk, start, limit, first, left)
    requires ReadResult(between, after, wrapped', true, disk, start, limit, first + BLOCK_SIZE, right)
    ensures left == BlockRead(contents, disk, start, limit, first)
    ensures !wrapped' ==> right == SecondRead(contents, disk, start, limit, first)
    ensures Served(map[], disk, start, limit, first) ==> left == View(disk, start, limit, first)
    ensures Served(map[], disk, start, limit, first + BLOCK_SIZE) ==>
              right == View(disk, start, limit, first + BLOCK_SIZE)
  {
    assert ReadGuard(Key, first, left) && ReadGuard(Key, first + BLOCK_SIZE, right);
    if !wrapped' {
      SecondIs(contents, between, disk, start, limit, first, left);
    }
  }

  lemma AlignedResult(contents: map<nat, seq<Byte>>, after: map<nat, seq<Byte>>, wrapped: bool, healthy: bool,
                      disk: seq<Byte>, start: nat, limit: Option<nat>, offset: nat, out: seq<Byte>)
    requires offset % BLOCK_SIZE == 0 && ReadResult(contents, after, wrapped, healthy, disk, start, limit, offset, out)
    ensures OffsetResult(contents, wrapped, healthy, disk, start, limit, offset, out)
  {
    assert ReadGuard(Key, offset, out);
    AlignedViewBytes(disk, start, limit, offset);
    assert BlockOf(offset) == offset;
  }

  /** A second block past the end of `usize` is not read, and it would read as zeros. */
  lemma OnlyHalf(contents: map<nat, seq<Byte>>, after: map<nat, seq<Byte>>, wrapped: bool, healthy: bool,
                 disk: seq<Byte>, start: nat, limit: Option<nat>, offset: nat, out: seq<Byte>, left: seq<Byte>)
    requires HalfRead(contents, after, wrapped, healthy, disk, start, limit, offset, out, left)
    requires BlockOf(offset) + BLOCK_SIZE >= USIZE_LIMIT
    ensures OffsetResult(contents, wrapped, healthy, disk, start, limit, offset, out)
  {
    var skip := offset % BLOCK_SIZE;
    assert ReadGuard(Key, BlockOf(offset), left);
    JoinBlocks(disk, start, limit, BlockOf(offset), skip);
    ZeroParts(skip);
  }

  lemma JoinsAgree(a: seq<Byte>, b: seq<Byte>, v: seq<Byte>, w: seq<Byte>, skip: nat)
    requires |a| == |b| == |v| == |w| && skip <= |a|
    ensures a[skip..] + b[..skip] == v[skip..] + w[..skip] <==> a[skip..] == v[skip..] && b[..skip] == w[..skip]
  {
    var n := |a| - skip;
    assert (a[skip..] + b[..skip])[..n] == a[skip..] && (a[skip..] + b[..skip])[n..] == b[..skip];
    assert (v[skip..] + w[..skip])[..n] == v[skip..] && (v[skip..] + w[..skip])[n..] == w[..skip];
  }

  // ---------------------------------------------------------------- the recency list while blocks are added

  /** The list ends with these blocks. */
  ghost predicate Ends(order: seq<nat>, done: seq<nat>) {
    |done| <= |order| && order[|order| - |done|..] == done
  }

  lemma WithoutCons(x: nat, rest: seq<nat>, b: nat)
    ensures Without([x] + rest, b) == (if x == b then [] else [x]) + Without(rest, b)
  {
    assert ([x] + rest)[1..] == rest;
  }

  lemma {:induction false} WithoutPrefix(prefix: seq<nat>, done: seq<nat>, b: nat)
    requires Without(done, b) == done
    ensures Without(prefix + done, b) == Without(prefix, b) + done
  {
    if prefix == [] {
      assert prefix + done == done;
    } else {
      var x, rest := prefix[0], prefix[1..];
      WithoutPrefix(rest, done, b);
      WithoutCons(x, rest, b);
      WithoutCons(x, rest + done, b);
      assert prefix == [x] + rest && prefix + done == [x] + (rest + done);
    }
  }

  lemma EndsWith(prefix: seq<nat>, done: seq<nat>, b: nat)
    ensures Ends(prefix + done + [b], done + [b])
  {
  }

  /** Fewer blocks than the cache holds stay at the end of the list while one more is added. */
  lemma InsertedEnds(order: seq<nat>, done: seq<nat>, b: nat)
    requires Ends(order, done) && b !in done && |done| < CACHE_LIMIT
    ensures Ends(Inserted(order, b), done + [b])
  {
    var prefix := order[..|order| - |done|];
    assert order == prefix + done;
    if b in order {
      WithoutNone(done, b);
      WithoutPrefix(prefix, done, b);
      EndsWith(Without(prefix, b), done, b);
    } else if |order| >= CACHE_LIMIT {
      assert order[1..] == prefix[1..] + done;
      EndsWith(prefix[1..], done, b);
    } else {
      EndsWith(prefix, done, b);
    }
  }

  class BlockRange {
    const start: nat
    const limit: Option<nat>
    const cache: BlockCache
    const raw: VirtioBlock
    /** A healthy device fails no request that is inside it. */
    const healthy: bool

    /** Everything but coherence. */
    ghost predicate Sized()
      reads this, cache, raw
    {
      cache.Valid() && raw.Valid() && |raw.disk| < USIZE_LIMIT
    }

    ghost predicate Valid()
      reads this, cache, raw
    {
      Sized() && Coherent(cache.contents, raw.disk, start, limit)
    }

    constructor (start: nat, limit: Option<nat>, raw: VirtioBlock, healthy: bool)
      requires raw.Valid() && |raw.disk| < USIZE_LIMIT
      ensures Valid() && fresh(cache) && cache.contents == map[]
      ensures this.raw == raw && this.start == start && this.limit == limit && this.healthy == healthy
    {
      this.start, this.limit, this.raw, this.healthy := start, limit, raw, healthy;
      cache := new BlockCache();
    }

    /** `read_raw_at` */
    method ReadRawAt(offset: nat, len: nat) returns (r: Option<seq<Byte>>)
      requires raw.Valid()
      ensures len > 0 && r.Some? ==>
                && (limit.Some? ==> offset + len <= limit.value) && offset + len < USIZE_LIMIT
                && start + offset < USIZE_LIMIT && start + offset + len <= |raw.disk|
                && r.value == raw.disk[start + offset..start + offset + len]
      ensures healthy && (limit.Some? ==> offset + len <= limit.value) && offset + len < USIZE_LIMIT ==>
                start + offset < USIZE_LIMIT && start + offset + len <= |raw.disk| ==> r.Some?
      ensures len == 0 && r.Some? ==> r.value == []
      ensures len == 0 ==>
                (r.Some? <==> && (limit.Some? ==> offset <= limit.value)
                              && offset < USIZE_LIMIT && start + offset < USIZE_LIMIT)
    {
      var abs := CheckedAbsRange(start, limit, offset, len);
      if abs.None? {
        return None;
      }
      var fails: bool := *;
      r := raw.ReadPhys(abs.value, len, !healthy && fails);
    }

    /**
     A block is read as the device holds it, unless the blocks read ahead pass the end of the device: then a block
     that is not cached reads as zeros. A block that cannot be read, or that the device fails, reads as zeros too.
     */
    method ReadCachedBlock(offset: nat) returns (r: seq<Byte>)
      requires Valid() && offset < USIZE_LIMIT
      modifies cache
      ensures Valid() && (old(cache.wrapped) ==> cache.wrapped)
      ensures ReadResult(old(cache.contents), cache.contents, cache.wrapped, healthy, raw.disk, start, limit, offset, r)
      ensures healthy ==> (r == View(raw.disk, start, limit, offset)
                           <==> Served(old(cache.contents), raw.disk, start, limit, offset)
                                || View(raw.disk, start, limit, offset) == Zeros(BLOCK_SIZE))
      ensures healthy ==>
                Shows(raw.disk, start, limit, offset,
                      offset in old(cache.contents)
                      || start + offset + ReadAheadCount(limit, offset) * BLOCK_SIZE <= |raw.disk|,
                      0, BLOCK_SIZE, r)
      ensures old(AlignedKeys(cache.contents)) && offset % BLOCK_SIZE == 0 ==> AlignedKeys(cache.contents)
    {
      var cached := cache.Get(offset);
      ReadAheadFitsIff(raw.disk, start, limit, offset);
      ViewShows(raw.disk, start, limit, offset, 0, BLOCK_SIZE);
      SameTail(View(raw.disk, start, limit, offset), BLOCK_SIZE);
      SameTail(Zeros(BLOCK_SIZE), BLOCK_SIZE);
      if cached.Some? {
        HitIsFresh(cache.contents, raw.disk, start, limit, offset);
        return cached.value;
      }
      // The second look, under the lock, finds something only if another thread has read the block.
      cached := cache.Get(offset);
      assert cached.None?;
      var count := ReadAheadCount(limit, offset);
      var data := ReadRawAt(offset, count * BLOCK_SIZE);
      if data.None? {
        return Zeros(BLOCK_SIZE);
      }
      BlockOfRun(raw.disk, start, limit, offset, count, 0);
      r := data.value[..BLOCK_SIZE];
      InsertRun(offset, count, data.value);
    }

    /** The loop that caches the blocks of a read; before a wrap of the ages all of them are cached afterwards. */
    method InsertRun(offset: nat, count: nat, data: seq<Byte>)
      requires Valid() && count <= READ_AHEAD_BLOCKS
      requires Readable(raw.disk, start, limit, offset, count * BLOCK_SIZE)
      requires data == Slice(raw.disk, start + offset, count * BLOCK_SIZE)
      modifies cache
      ensures Valid() && (old(cache.wrapped) ==> cache.wrapped)
      ensures !cache.wrapped ==> RunCached(cache.contents, offset, count)
      ensures old(AlignedKeys(cache.contents)) && offset % BLOCK_SIZE == 0 ==> AlignedKeys(cache.contents)
    {
      ghost var done: seq<nat> := [];
      var index := 0;
      while index < count
        invariant index <= count && Valid() && (old(cache.wrapped) ==> cache.wrapped)
        invariant IsRunOf(done, offset, index)
        invariant !cache.wrapped ==> Ends(cache.order, done)
        invariant old(AlignedKeys(cache.contents)) && offset % BLOCK_SIZE == 0 ==> AlignedKeys(cache.contents)
      {
        BlockOfRun(raw.disk, start, limit, offset, count, index);
        var at := offset + index * BLOCK_SIZE;
        var block := data[index * BLOCK_SIZE..index * BLOCK_SIZE + BLOCK_SIZE];
        if !cache.wrapped {
          NotInRun(done, offset, index);
          InsertedEnds(cache.order, done, at);
        }
        RunExtends(done, offset, index);
        InsertBlock(at, block);
        done := done + [at];
        index := index + 1;
      }
      if !cache.wrapped {
        RunIsCached(done, offset, count);
      }
    }

    /** The run that ends the recency list is in the cache. */
    lemma RunIsCached(done: seq<nat>, offset: nat, count: nat)
      requires cache.Valid() && Ends(cache.order, done) && IsRunOf(done, offset, count)
      ensures RunCached(cache.contents, offset, count)
    {
      forall j: nat | j < count
        ensures InRun(cache.contents, offset, j)
      {
        var b := offset + j * BLOCK_SIZE;
        assert done[j] == b && cache.order[|cache.order| - |done| + j] == b;
        IndexLookup(cache.blocks, cache.ages, cache.contents, cache.order, cache.nextAge, cache.wrapped, b);
      }
    }

    method InsertBlock(at: nat, block: seq<Byte>)
      requires Valid() && Fresh(block, raw.disk, start, limit, at)
      modifies cache
      ensures Valid() && (old(cache.wrapped) ==> cache.wrapped)
      ensures !cache.wrapped ==> cache.order == Inserted(old(cache.order), at)
      ensures old(AlignedKeys(cache.contents)) && at % BLOCK_SIZE == 0 ==> AlignedKeys(cache.contents)
    {
      ghost var before := cache.contents;
      ghost var evicted := cache.Insert(at, block);
      CoherentInsert(before, evicted, raw.disk, start, limit, at);
      if AlignedKeys(before) && at % BLOCK_SIZE == 0 {
        AlignedInsert(before, evicted, at, block);
      }
    }

    /**
     A read at any offset. Before a wrap of the ages its result is determined by what is cached, and it is the
     device bytes exactly when the covering blocks are served; with blocks read ahead that end on the device it
     always is.
     */
    method ReadOffset(offset: nat) returns (out: seq<Byte>)
      requires Valid() && offset < USIZE_LIMIT
      modifies cache
      ensures Valid() && OffsetResult(old(cache.contents), cache.wrapped, healthy, raw.disk, start, limit, offset, out)
      ensures healthy && !cache.wrapped ==>
                (out == ViewBytes(raw.disk, start, limit, offset)
                 <==> OffsetServed(old(cache.contents), raw.disk, start, limit, offset))
      ensures healthy ==>
                var skip, first := offset % BLOCK_SIZE, offset - offset % BLOCK_SIZE;
                var second := first + BLOCK_SIZE;
                var firstFits := start + first + ReadAheadCount(limit, first) * BLOCK_SIZE <= |raw.disk|;
                var secondFits := start + second + ReadAheadCount(limit, second) * BLOCK_SIZE <= |raw.disk|;
                && Shows(raw.disk, start, limit, first, first in old(cache.contents) || firstFits, skip, BLOCK_SIZE,
                         out[..BLOCK_SIZE - skip])
                && (!cache.wrapped ==>
                      Shows(raw.disk, start, limit, second,
                            second in old(cache.contents) || secondFits || (first !in old(cache.contents) && firstFits),
                            0, skip, out[BLOCK_SIZE - skip..]))
                && (secondFits ==> Shows(raw.disk, start, limit, second, true, 0, skip, out[BLOCK_SIZE - skip..]))
      ensures healthy && Reached(raw.disk, start, limit, offset - offset % BLOCK_SIZE, offset % BLOCK_SIZE) ==>
                && start + offset + BLOCK_SIZE <= |raw.disk|
                && out == raw.disk[start + offset..start + offset + BLOCK_SIZE]
      ensures old(AlignedKeys(cache.contents)) ==> AlignedKeys(cache.contents)
    {
      if offset % BLOCK_SIZE == 0 {
        out := ReadCachedBlock(offset);
        AlignedResult(old(cache.contents), cache.contents, cache.wrapped, healthy, raw.disk, start, limit, offset, out);
      } else {
        out := ReadUnaligned(offset);
      }
      if healthy {
        OffsetMeans(old(cache.contents), cache.wrapped, raw.disk, start, limit, offset, out);
        if !cache.wrapped {
          OffsetExact(old(cache.contents), raw.disk, start, limit, offset, out);
        }
      }
    }

    /**
     One turn of the loop below: the part of a block that the range covers goes behind what has been copied.
     It is never empty, so the test for an empty part always fails.
     */
    static method CopyPiece(out: seq<Byte>, copied: nat, offset: nat, block: nat, data: seq<Byte>)
      returns (out': seq<Byte>, copied': nat)
      requires |out| == BLOCK_SIZE && |data| == BLOCK_SIZE && offset < USIZE_LIMIT && offset % BLOCK_SIZE != 0
      requires (copied == 0 && block == offset - offset % BLOCK_SIZE && out == Zeros(BLOCK_SIZE))
               || (copied == BLOCK_SIZE - offset % BLOCK_SIZE && block == offset + copied < USIZE_LIMIT)
      ensures |out'| == BLOCK_SIZE && copied' == if copied == 0 then BLOCK_SIZE - offset % BLOCK_SIZE else BLOCK_SIZE
      ensures out' == if copied == 0 then data[offset % BLOCK_SIZE..] + Zeros(offset % BLOCK_SIZE)
                      else Overlay(out, copied, data[..offset % BLOCK_SIZE])
    {
      FirstPiece(data, offset % BLOCK_SIZE);
      var blockOffset := SaturatingSub(SaturatingAdd(offset, copied), block);
      var available := SaturatingSub(BLOCK_SIZE, blockOffset);
      var count := Min(available, BLOCK_SIZE - copied);
      out' := Overlay(out, copied, data[blockOffset..blockOffset + count]);
      copied' := copied + count;
    }

    /** The first or the second turn of the loop: reads the block and puts its part in place. */
    method ReadPart(out: seq<Byte>, copied: nat, offset: nat, block: nat, ghost contents0: map<nat, seq<Byte>>,
                    ghost left: seq<Byte>)
      returns (out': seq<Byte>, copied': nat, ghost left': seq<Byte>)
      requires Valid() && |out| == BLOCK_SIZE && offset < USIZE_LIMIT && offset % BLOCK_SIZE != 0
      requires (copied == 0 && block == BlockOf(offset) && out == Zeros(BLOCK_SIZE) && cache.contents == contents0)
               || (copied == BLOCK_SIZE - offset % BLOCK_SIZE && block == BlockOf(offset) + BLOCK_SIZE < USIZE_LIMIT
                   && HalfRead(contents0, cache.contents, cache.wrapped, healthy, raw.disk, start, limit, offset, out,
                       left))
      modifies cache
      ensures Valid() && |out'| == BLOCK_SIZE
      ensures copied == 0 ==>
                && copied' == BLOCK_SIZE - offset % BLOCK_SIZE
                && HalfRead(contents0, cache.contents, cache.wrapped, healthy, raw.disk, start, limit, offset, out',
                    left')
      ensures copied != 0 ==>
                && copied' == BLOCK_SIZE
                && OffsetResult(contents0, cache.wrapped, healthy, raw.disk, start, limit, offset, out')
      ensures old(AlignedKeys(cache.contents)) ==> AlignedKeys(cache.contents)
    {
      ghost var between, wrapped := cache.contents, cache.wrapped;
      var data := ReadCachedBlock(block);
      if copied != 0 {
        SecondHalf(contents0, between, cache.contents, wrapped, cache.wrapped, healthy, raw.disk, start, limit, offset,
                   out, left, data);
      }
      left' := data;
      out', copied' := CopyPiece(out, copied, offset, block, data);
    }

    /** The loop over the two covering blocks. */
    method ReadUnaligned(offset: nat) returns (out: seq<Byte>)
      requires Valid() && offset < USIZE_LIMIT && offset % BLOCK_SIZE != 0
      modifies cache
      ensures Valid() && OffsetResult(old(cache.contents), cache.wrapped, healthy, raw.disk, start, limit, offset, out)
      ensures old(AlignedKeys(cache.contents)) ==> AlignedKeys(cache.contents)
    {
      var end := SaturatingAdd(offset, BLOCK_SIZE);
      var first := BlockOf(offset);
      ghost var contents0, left := cache.contents, Zeros(BLOCK_SIZE);
      out := Zeros(BLOCK_SIZE);
      var copied := 0;
      var block := first;
      while copied < BLOCK_SIZE
        invariant Valid() && |out| == BLOCK_SIZE
        invariant AlignedKeys(contents0) ==> AlignedKeys(cache.contents)
        invariant (copied == 0 && block == first && out == Zeros(BLOCK_SIZE) && cache.contents == contents0)
                  || (copied == BLOCK_SIZE - offset % BLOCK_SIZE && block == first + BLOCK_SIZE < USIZE_LIMIT
                      && HalfRead(contents0, cache.contents, cache.wrapped, healthy, raw.disk, start, limit, offset,
                                  out, left))
                  || (copied == BLOCK_SIZE
                      && OffsetResult(contents0, cache.wrapped, healthy, raw.disk, start, limit, offset, out))
        decreases BLOCK_SIZE - copied
      {
        out, copied, left := ReadPart(out, copied, offset, block, contents0, left);
        block := SaturatingAdd(block, BLOCK_SIZE);
        if block >= end && copied < BLOCK_SIZE {
          OnlyHalf(contents0, cache.contents, cache.wrapped, healthy, raw.disk, start, limit, offset, out, left);
          break;
        }
      }
    }

    /**
     A batch returns the bytes of the device for each offset, aligned or not, in any order and with repetitions.
     On a healthy device it fails exactly when one of the blocks is not readable.
     */
    method ReadCachedBlocks(offsets: seq<nat>) returns (r: Option<seq<seq<Byte>>>)
      requires Valid() && forall i :: 0 <= i < |offsets| ==> offsets[i] < USIZE_LIMIT
      modifies cache
      ensures Valid()
      ensures r.Some? ==>
                && |r.value| == |offsets|
                && forall i :: 0 <= i < |offsets| ==>
                     && start + offsets[i] + BLOCK_SIZE <= |raw.disk|
                     && (limit.Some? ==> offsets[i] + BLOCK_SIZE <= limit.value)
                     && r.value[i] == raw.disk[start + offsets[i]..start + offsets[i] + BLOCK_SIZE]
      ensures healthy && (forall i :: 0 <= i < |offsets| ==>
                            && start + offsets[i] + BLOCK_SIZE <= |raw.disk|
                            && (limit.Some? ==> offsets[i] + BLOCK_SIZE <= limit.value)) ==>
                r.Some?
      ensures old(AlignedKeys(cache.contents)) && AllAligned(offsets) ==> AlignedKeys(cache.contents)
    {
      var blocks := LookUpAll(offsets, seq(|offsets|, _ => None));
      if forall i :: 0 <= i < |blocks| ==> blocks[i].Some? {
        return Some(Values(blocks));
      }
      blocks := LookUpAll(offsets, blocks);
      var index := 0;
      while index < |offsets|
        invariant index <= |offsets| == |blocks| && Valid()
        invariant Got(blocks, offsets, raw.disk, start, limit)
        invariant forall i :: 0 <= i < index ==> blocks[i].Some?
        invariant old(AlignedKeys(cache.contents)) && AllAligned(offsets) ==> AlignedKeys(cache.contents)
      {
        if blocks[index].Some? {
          index := index + 1;
        } else {
          var runEnd := FindRunEnd(offsets, blocks, index);
          var more := FetchRun(offsets, blocks, index, runEnd);
          if more.None? {
            return None;
          }
          blocks := more.value;
          index := runEnd;
        }
      }
      r := Some(Values(blocks));
    }

    /** Reads a run with one request; on a healthy device this fails only when its last block is not readable. */
    method FetchRun(offsets: seq<nat>, found: seq<Option<seq<Byte>>>, runStart: nat, runEnd: nat)
      returns (r: Option<seq<Option<seq<Byte>>>>)
      requires Valid() && |found| == |offsets| && Got(found, offsets, raw.disk, start, limit)
      requires runStart < runEnd <= |offsets|
      requires forall i :: runStart <= i < runEnd ==> offsets[i] == offsets[runStart] + (i - runStart) * BLOCK_SIZE
      modifies cache
      ensures Valid()
      ensures r.Some? ==> && |r.value| == |offsets| && Got(r.value, offsets, raw.disk, start, limit)
                          && forall i :: 0 <= i < |offsets| ==>
                               r.value[i].Some? == (found[i].Some? || runStart <= i < runEnd)
      ensures old(AlignedKeys(cache.contents)) && AllAligned(offsets) ==> AlignedKeys(cache.contents)
      ensures healthy && r.None? ==> !Readable(raw.disk, start, limit, offsets[runEnd - 1], BLOCK_SIZE)
    {
      var n := runEnd - runStart;
      RunReadable(raw.disk, start, limit, offsets[runStart], n);
      assert offsets[runEnd - 1] == offsets[runStart] + (n - 1) * BLOCK_SIZE;
      if n * BLOCK_SIZE >= USIZE_LIMIT {
        return None;
      }
      var data := ReadRawAt(offsets[runStart], n * BLOCK_SIZE);
      if data.None? {
        return None;
      }
      var blocks := StoreRun(offsets, found, runStart, runEnd, data.value);
      r := Some(blocks);
    }

    /** The end of the run of adjacent missing blocks that starts at `index`. */
    static method FindRunEnd(offsets: seq<nat>, blocks: seq<Option<seq<Byte>>>, index: nat) returns (runEnd: nat)
      requires index < |offsets| == |blocks| && blocks[index].None?
      ensures index < runEnd <= |offsets|
      ensures forall i :: index <= i < runEnd ==>
                blocks[i].None? && offsets[i] == offsets[index] + (i - index) * BLOCK_SIZE
      ensures runEnd < |offsets| ==> blocks[runEnd].Some? || offsets[runEnd] != offsets[runEnd - 1] + BLOCK_SIZE
    {
      runEnd := index + 1;
      while runEnd < |offsets| && blocks[runEnd].None? && offsets[runEnd - 1] + BLOCK_SIZE == offsets[runEnd]
        invariant index < runEnd <= |offsets|
        invariant forall i :: index <= i < runEnd ==>
                    blocks[i].None? && offsets[i] == offsets[index] + (i - index) * BLOCK_SIZE
      {
        runEnd := runEnd + 1;
      }
    }

    /** One pass over the offsets that are still missing, under the cache lock. */
    method LookUpAll(offsets: seq<nat>, found: seq<Option<seq<Byte>>>) returns (blocks: seq<Option<seq<Byte>>>)
      requires Valid() && |found| == |offsets| && Got(found, offsets, raw.disk, start, limit)
      modifies cache
      ensures Valid() && |blocks| == |offsets| && Got(blocks, offsets, raw.disk, start, limit)
      ensures cache.contents == old(cache.contents)
    {
      blocks := found;
      var index := 0;
      while index < |offsets|
        invariant index <= |offsets| == |blocks| && Valid() && cache.contents == old(cache.contents)
        invariant Got(blocks, offsets, raw.disk, start, limit)
      {
        if blocks[index].None? {
          var hit := cache.Get(offsets[index]);
          if hit.Some? {
            HitIsFresh(cache.contents, raw.disk, start, limit, offsets[index]);
          }
          blocks := blocks[index := hit];
        }
        index := index + 1;
      }
    }

    /** Caches the blocks of a run and stores them as results. */
    method StoreRun(offsets: seq<nat>, found: seq<Option<seq<Byte>>>, runStart: nat, runEnd: nat, data: seq<Byte>)
      returns (blocks: seq<Option<seq<Byte>>>)
      requires Valid() && |found| == |offsets| && Got(found, offsets, raw.disk, start, limit)
      requires runStart < runEnd <= |offsets|
      requires forall i :: runStart <= i < runEnd ==> offsets[i] == offsets[runStart] + (i - runStart) * BLOCK_SIZE
      requires Readable(raw.disk, start, limit, offsets[runStart], (runEnd - runStart) * BLOCK_SIZE)
      requires data == Slice(raw.disk, start + offsets[runStart], (runEnd - runStart) * BLOCK_SIZE)
      modifies cache
      ensures Valid() && |blocks| == |offsets| && Got(blocks, offsets, raw.disk, start, limit)
      ensures forall i :: 0 <= i < |offsets| ==> blocks[i].Some? == (found[i].Some? || runStart <= i < runEnd)
      ensures old(AlignedKeys(cache.contents)) && AllAligned(offsets) ==> AlignedKeys(cache.contents)
    {
      blocks := found;
      var i := runStart;
      while i < runEnd
        invariant runStart <= i <= runEnd && |blocks| == |offsets| && Valid()
        invariant Got(blocks, offsets, raw.disk, start, limit)
        invariant forall j :: 0 <= j < |offsets| ==> blocks[j].Some? == (found[j].Some? || runStart <= j < i)
        invariant old(AlignedKeys(cache.contents)) && AllAligned(offsets) ==> AlignedKeys(cache.contents)
      {
        BlockOfRun(raw.disk, start, limit, offsets[runStart], runEnd - runStart, i - runStart);
        var at := (i - runStart) * BLOCK_SIZE;
        var block := data[at..at + BLOCK_SIZE];
        InsertBlock(offsets[i], block);
        blocks := blocks[i := Some(block)];
        i := i + 1;
      }
    }

    /**
     A write first drops every cached block it overlaps. With aligned keys and a start on a sector boundary the cache
     stays coherent, whatever the driver does to the sectors it touches.
     */
    method WriteAt(offset: nat, data: seq<Byte>, junk: seq<Byte>) returns (ok: bool)
      requires Sized() && offset < USIZE_LIMIT && |data| < USIZE_LIMIT
      requires data != [] ==> |junk| == SpanEnd(start + offset, |data|) - SpanStart(start + offset)
      modifies raw, cache
      ensures Sized() && |raw.disk| == |old(raw.disk)|
                && cache.contents == Invalidated(old(cache.contents), offset, |data|)
      ensures RawWrite(old(raw.disk), raw.disk, start, limit, offset, data, healthy, ok)
      ensures ok && data != [] ==>
                && (limit.Some? ==> offset + |data| <= limit.value) && start + offset + |data| <= |raw.disk|
                && raw.disk[start + offset..start + offset + |data|] == data
      ensures healthy && data != [] && (limit.Some? ==> offset + |data| <= limit.value) ==>
                start + offset + |data| <= |raw.disk| ==> ok
      ensures data == [] ==> (ok <==> start + offset < USIZE_LIMIT && (limit.Some? ==> offset <= limit.value))
      ensures (!ok && healthy) || data == [] ==> raw.disk == old(raw.disk)
      ensures healthy && ok ==>
                forall i :: 0 <= i < |raw.disk| && !(start + offset <= i < start + offset + |data|) ==>
                  raw.disk[i] == old(raw.disk)[i]
      ensures old(Valid() && AlignedKeys(cache.contents)) && start % SECTOR_SIZE == 0 ==>
                Valid() && AlignedKeys(cache.contents)
    {
      cache.InvalidateRange(offset, |data|);
      ghost var before := raw.disk;
      ok := WriteRawAt(offset, data, junk);
      WriteArithmetic(before, raw.disk, start, limit, offset, data, healthy, ok);
      if old(Valid() && AlignedKeys(cache.contents)) && start % SECTOR_SIZE == 0 {
        CoherentAfterWrite(old(cache.contents), before, raw.disk, start, limit, offset, |data|);
      }
    }

    /** The request to the driver. */
    method WriteRawAt(offset: nat, data: seq<Byte>, junk: seq<Byte>) returns (ok: bool)
      requires raw.Valid() && (data != [] ==> |junk| == SpanEnd(start + offset, |data|) - SpanStart(start + offset))
      modifies raw
      ensures raw.Valid() && |raw.disk| == |old(raw.disk)|
      ensures RawWrite(old(raw.disk), raw.disk, start, limit, offset, data, healthy, ok)
    {
      var abs := CheckedAbsRange(start, limit, offset, |data|);
      if abs.None? {
        return false;
      }
      var readFails: bool, writeFails: bool := *, *;
      readFails, writeFails := !healthy && readFails, !healthy && writeFails;
      ghost var before := raw.disk;
      ok := raw.WritePhys(abs.value, data, readFails, writeFails, junk);
      PhysIsRaw(before, raw.disk, start, limit, offset, abs.value, data, healthy, readFails, writeFails, ok);
    }
  }

  /**
   What a raw write does to the device: nothing outside the touched sectors; the bytes are there when it succeeds; on
   a healthy device nothing else changes and every request inside the range and the device succeeds.
   */
  ghost predicate RawWrite(disk: seq<Byte>, disk': seq<Byte>, start: nat, limit: Option<nat>, offset: nat,
                           data: seq<Byte>, healthy: bool, ok: bool)
  {
    && |disk'| == |disk|
    && Untouched(disk, disk', start + offset, |data|)
    && (data == [] || !Readable(disk, start, limit, offset, |data|) ==> disk' == disk)
    && (ok && data != [] ==> && Readable(disk, start, limit, offset, |data|)
                             && disk'[start + offset..start + offset + |data|] == data)
    && (healthy && Readable(disk, start, limit, offset, |data|) ==> ok && disk' == Overlay(disk, start + offset, data))
    && (data == [] ==> (ok <==> CheckedAbsRange(start, limit, offset, 0).Some?))
  }

  /** Which writes succeed, in terms of the length of the range and the size of the device. */
  lemma WriteArithmetic(disk: seq<Byte>, disk': seq<Byte>, start: nat, limit: Option<nat>, offset: nat,
                        data: seq<Byte>, healthy: bool, ok: bool)
    requires RawWrite(disk, disk', start, limit, offset, data, healthy, ok) && |disk| < USIZE_LIMIT
    requires offset < USIZE_LIMIT
    ensures ok && data != [] ==>
              && (limit.Some? ==> offset + |data| <= limit.value) && start + offset + |data| <= |disk|
              && disk'[start + offset..start + offset + |data|] == data
    ensures healthy && data != [] && (limit.Some? ==> offset + |data| <= limit.value) ==>
              start + offset + |data| <= |disk| ==> ok
    ensures data == [] ==> (ok <==> start + offset < USIZE_LIMIT && (limit.Some? ==> offset <= limit.value))
    ensures (!ok && healthy) || data == [] ==> disk' == disk
    ensures healthy && ok ==>
              forall i :: 0 <= i < |disk| && !(start + offset <= i < start + offset + |data|) ==> disk'[i] == disk[i]
  {
    if healthy && Readable(disk, start, limit, offset, |data|) {
      OverlayAt(disk, start + offset, data);
    }
  }

  /** What the driver promises of a write is what the range needs of it. */
  lemma PhysIsRaw(disk: seq<Byte>, disk': seq<Byte>, start: nat, limit: Option<nat>, offset: nat, at: nat,
                  data: seq<Byte>, healthy: bool, readFails: bool, writeFails: bool, ok: bool)
    requires CheckedAbsRange(start, limit, offset, |data|) == Some(at) && |disk'| == |disk|
    requires |disk| % SECTOR_SIZE == 0 && (healthy ==> !readFails && !writeFails)
    requires ok <==> data == [] || (!writeFails && at + |data| <= |disk'|)
    requires data == [] || at + |data| > |disk'| ==> disk' == disk
    requires ok && data != [] ==> SpanEnd(at, |data|) <= |disk| && disk' == AfterWrite(disk, at, data, readFails)
    requires ok && data != [] ==> disk'[at..at + |data|] == data
    requires forall i :: 0 <= i < |disk'| && (data == [] || !(SpanStart(at) <= i < SpanEnd(at, |data|))) ==>
               disk'[i] == disk[i]
    ensures RawWrite(disk, disk', start, limit, offset, data, healthy, ok)
  {
    if healthy && Readable(disk, start, limit, offset, |data|) {
      if data == [] {
        assert Overlay(disk, start + offset, data) == disk;
      } else {
        SpanInCapacity(start + offset, |data|, |disk|);
        WriteIsExactIff(disk, start + offset, data, false);
      }
    }
  }

  /** The bytes outside the sectors of a request are the same. */
  ghost predicate Untouched(disk: seq<Byte>, disk': seq<Byte>, at: nat, len: nat)
    requires |disk'| == |disk|
  {
    forall g :: UntouchedGuard(g, disk, disk') ==>
      forall i :: 0 <= i < |disk| && !(SpanStart(at) <= i < SpanEnd(at, len)) ==> disk'[i] == disk[i]
  }

  ghost predicate UntouchedGuard(g: Guard, disk: seq<Byte>, disk': seq<Byte>) { g == Key }

  ghost predicate IsRunOf(done: seq<nat>, offset: nat, n: nat) {
    |done| == n && forall j :: 0 <= j < n ==> done[j] == offset + j * BLOCK_SIZE
  }

  lemma RunExtends(done: seq<nat>, offset: nat, n: nat)
    requires IsRunOf(done, offset, n)
    ensures IsRunOf(done + [offset + n * BLOCK_SIZE], offset, n + 1)
  {
  }

  lemma NotInRun(done: seq<nat>, offset: nat, n: nat)
    requires IsRunOf(done, offset, n)
    ensures offset + n * BLOCK_SIZE !in done
  {
  }

  predicate AllAligned(offsets: seq<nat>) {
    forall i :: 0 <= i < |offsets| ==> offsets[i] % BLOCK_SIZE == 0
  }

  /** The results found so far are what the device holds. */
  ghost predicate Got(blocks: seq<Option<seq<Byte>>>, offsets: seq<nat>, disk: seq<Byte>, start: nat,
                      limit: Option<nat>) {
    |blocks| == |offsets|
    && forall i :: 0 <= i < |blocks| && blocks[i].Some? ==> Fresh(blocks[i].value, disk, start, limit, offsets[i])
  }

  function Values(blocks: seq<Option<seq<Byte>>>): (r: seq<seq<Byte>>)
    requires forall i :: 0 <= i < |blocks| ==> blocks[i].Some?
    ensures |r| == |blocks| && forall i :: 0 <= i < |r| ==> r[i] == blocks[i].value
  {
    seq(|blocks|, i requires 0 <= i < |blocks| => blocks[i].value)
  }

  function SaturatingSub(a: nat, b: nat): nat { if a >= b then a - b else 0 }

  /** The byte of the device at `p`, or zero when its block is not readable. */
  function ViewByte(disk: seq<Byte>, start: nat, limit: Option<nat>, p: nat): Byte {
    View(disk, start, limit, p / BLOCK_SIZE * BLOCK_SIZE)[p % BLOCK_SIZE]
  }

  function ViewBytes(disk: seq<Byte>, start: nat, limit: Option<nat>, offset: nat): seq<Byte> {
    seq(BLOCK_SIZE, i requires 0 <= i => ViewByte(disk, start, limit, offset + i))
  }

  lemma AlignedViewBytes(disk: seq<Byte>, start: nat, limit: Option<nat>, offset: nat)
    requires offset % BLOCK_SIZE == 0
    ensures ViewBytes(disk, start, limit, offset) == View(disk, start, limit, offset)
  {
    var bytes, view := ViewBytes(disk, start, limit, offset), View(disk, start, limit, offset);
    forall i | 0 <= i < BLOCK_SIZE
      ensures bytes[i] == view[i]
    {
      InBlock(offset, i);
    }
  }

  /** The block of a position and the place in it. */
  lemma InBlock(block: nat, i: nat)
    requires block % BLOCK_SIZE == 0 && i < BLOCK_SIZE
    ensures (block + i) / BLOCK_SIZE * BLOCK_SIZE == block && (block + i) % BLOCK_SIZE == i
  {
  }

  lemma ViewByteIn(disk: seq<Byte>, start: nat, limit: Option<nat>, block: nat, i: nat, p: nat)
    requires block % BLOCK_SIZE == 0 && i < BLOCK_SIZE && p == block + i
    ensures ViewByte(disk, start, limit, p) == View(disk, start, limit, block)[i]
  {
    InBlock(block, i);
  }

  /** A block-sized range is the end of one block followed by the beginning of the next. */
  lemma AcrossBlocks(disk: seq<Byte>, start: nat, limit: Option<nat>, offset: nat)
    ensures var first := offset / BLOCK_SIZE * BLOCK_SIZE;
            ViewBytes(disk, start, limit, offset)
            == View(disk, start, limit, first)[offset - first..]
               + View(disk, start, limit, first + BLOCK_SIZE)[..offset - first]
    ensures var first := offset / BLOCK_SIZE * BLOCK_SIZE;
            first + BLOCK_SIZE >= USIZE_LIMIT ==>
              View(disk, start, limit, first + BLOCK_SIZE)[..offset - first] == Zeros(offset - first)
  {
    var first := offset / BLOCK_SIZE * BLOCK_SIZE;
    JoinBlocks(disk, start, limit, first, offset - first);
    if first + BLOCK_SIZE >= USIZE_LIMIT {
      assert View(disk, start, limit, first + BLOCK_SIZE) == Zeros(BLOCK_SIZE);
    }
  }

  lemma JoinBlocks(disk: seq<Byte>, start: nat, limit: Option<nat>, first: nat, o: nat)
    requires first % BLOCK_SIZE == 0 && o < BLOCK_SIZE
    ensures ViewBytes(disk, start, limit, first + o)
         == View(disk, start, limit, first)[o..] + View(disk, start, limit, first + BLOCK_SIZE)[..o]
  {
    var next := first + BLOCK_SIZE;
    assert next % BLOCK_SIZE == 0;
    var v, w := View(disk, start, limit, first), View(disk, start, limit, next);
    var bytes := ViewBytes(disk, start, limit, first + o);
    forall i: nat | i < BLOCK_SIZE
      ensures bytes[i] == if i < BLOCK_SIZE - o then v[o + i] else w[o + i - BLOCK_SIZE]
    {
      var p := first + o + i;
      assert bytes[i] == ViewByte(disk, start, limit, p);
      if i < BLOCK_SIZE - o {
        ViewByteIn(disk, start, limit, first, o + i, p);
      } else {
        ViewByteIn(disk, start, limit, next, o + i - BLOCK_SIZE, p);
      }
    }
    JoinedIs(bytes, v, w, o);
  }

  lemma JoinedIs(bytes: seq<Byte>, v: seq<Byte>, w: seq<Byte>, o: nat)
    requires |bytes| == |v| == |w| && o <= |v|
    requires forall i: nat :: i < |bytes| ==> bytes[i] == if i < |v| - o then v[o + i] else w[o + i - |v|]
    ensures bytes == v[o..] + w[..o]
  {
  }

  lemma FirstPiece(data: seq<Byte>, skip: nat)
    requires |data| == BLOCK_SIZE && skip <= BLOCK_SIZE
    ensures Overlay(Zeros(BLOCK_SIZE), 0, data[skip..]) == data[skip..] + Zeros(skip)
  {
  }

  lemma SecondPiece(left: seq<Byte>, data: seq<Byte>, skip: nat)
    requires skip <= |data| && |left| + skip == BLOCK_SIZE
    ensures Overlay(left + Zeros(skip), |left|, data[..skip]) == left + data[..skip]
  {
  }

  /** With both covering blocks readable, these are exactly the bytes of the device. */
  lemma ViewBytesAreDeviceBytes(disk: seq<Byte>, start: nat, limit: Option<nat>, offset: nat)
    requires var first := offset / BLOCK_SIZE * BLOCK_SIZE;
             && Readable(disk, start, limit, first, BLOCK_SIZE)
             && Readable(disk, start, limit, first + BLOCK_SIZE, BLOCK_SIZE)
    ensures start + offset + BLOCK_SIZE <= |disk|
    ensures ViewBytes(disk, start, limit, offset) == Slice(disk, start + offset, BLOCK_SIZE)
  {
    AcrossBlocks(disk, start, limit, offset);
    var first := offset / BLOCK_SIZE * BLOCK_SIZE;
    var o := offset - first;
    var v, w := Slice(disk, start + first, BLOCK_SIZE), Slice(disk, start + first + BLOCK_SIZE, BLOCK_SIZE);
    var joined, bytes := v[o..] + w[..o], Slice(disk, start + offset, BLOCK_SIZE);
    assert forall i :: 0 <= i < BLOCK_SIZE ==> joined[i] == bytes[i];
  }

  /**
   A cached block at an unaligned key survives every write that does not overflow, so a one-byte write into it
   leaves it stale: alignment is exactly what coherence needs of the keys.
   */
  lemma UnalignedKeyGoesStale(contents: map<nat, seq<Byte>>, disk: seq<Byte>, start: nat, limit: Option<nat>, k: nat)
    requires k in contents && Fresh(contents[k], disk, start, limit, k) && k % BLOCK_SIZE != 0
    ensures forall offset: nat, len: nat :: offset + len < USIZE_LIMIT ==>
              k in Invalidated(contents, offset, len) && Invalidated(contents, offset, len)[k] == contents[k]
    ensures var disk' := Overlay(disk, start + k, [Other(disk[start + k])]);
            k + 1 < USIZE_LIMIT && !Fresh(Invalidated(contents, k, 1)[k], disk', start, limit, k)
  {
    var disk' := Overlay(disk, start + k, [Other(disk[start + k])]);
    OverlayAt(disk, start + k, [Other(disk[start + k])]);
    StaleByte(contents, disk, disk', start, limit, k);
  }

  /** Some other byte. */
  function Other(b: Byte): (c: Byte)
    ensures c != b
  {
    if b == 0 then 1 else 0
  }

  /** The sectors of a request end before, or begin after, an aligned block that the request does not overlap. */
  lemma SpanAvoids(start: nat, k: nat, offset: nat, len: nat)
    requires start % SECTOR_SIZE == 0 && k % BLOCK_SIZE == 0 && len > 0 && !Hit(k, offset, offset + len)
    ensures SpanEnd(start + offset, len) <= start + k || start + k + BLOCK_SIZE <= SpanStart(start + offset)
  {
    var at, block := start + offset, start + k;
    BlockSectors(start, k);
    SpanFacts(at, len);
    if k >= offset + len {
      Multiples(SpanEnd(at, len), block);
    } else {
      Multiples(block + BLOCK_SIZE, SpanStart(at));
    }
  }

  /** An aligned block of a range that starts on a sector boundary consists of whole sectors. */
  lemma BlockSectors(start: nat, k: nat)
    requires start % SECTOR_SIZE == 0 && k % BLOCK_SIZE == 0
    ensures (start + k) % SECTOR_SIZE == 0 && (start + k + BLOCK_SIZE) % SECTOR_SIZE == 0
  {
    var q := start / SECTOR_SIZE + 8 * (k / BLOCK_SIZE);
    assert start + k == q * SECTOR_SIZE && start + k + BLOCK_SIZE == (q + 8) * SECTOR_SIZE;
    WholeMultiple(q);
    WholeMultiple(q + 8);
  }

  lemma WholeMultiple(q: nat)
    ensures q * SECTOR_SIZE % SECTOR_SIZE == 0
  {
  }

  /** The kept blocks are outside the sectors of the request, so they still agree with the device. */
  lemma CoherentAfterWrite(contents: map<nat, seq<Byte>>, disk: seq<Byte>, disk': seq<Byte>, start: nat,
                           limit: Option<nat>, offset: nat, len: nat)
    requires start % SECTOR_SIZE == 0 && AlignedKeys(contents)
    requires Coherent(contents, disk, start, limit) && |disk'| == |disk| < USIZE_LIMIT
    requires Untouched(disk, disk', start + offset, len) && (len == 0 ==> disk' == disk)
    ensures Coherent(Invalidated(contents, offset, len), disk', start, limit)
    ensures AlignedKeys(Invalidated(contents, offset, len))
  {
    assert CoherentGuard(Key, contents, disk);
    assert KeysGuard(Key, contents);
    assert UntouchedGuard(Key, disk, disk');
    forall k | k in Invalidated(contents, offset, len)
      ensures Fresh(contents[k], disk', start, limit, k)
    {
      assert Fresh(contents[k], disk, start, limit, k);
      if len > 0 {
        SpanAvoids(start, k, offset, len);
        var block, block' := Slice(disk, start + k, BLOCK_SIZE), Slice(disk', start + k, BLOCK_SIZE);
        assert forall i :: 0 <= i < BLOCK_SIZE ==> block[i] == disk[start + k + i] == disk'[start + k + i] == block'[i];
      }
    }
  }

  /**
   When a range does not start on a sector boundary, a one-byte write just before the block at BLOCK_SIZE, whose
   preparatory read fails, zeroes the beginning of that block, which stays in the cache: the boundary is needed.
   */
  lemma UnalignedStartGoesStale(start: nat)
    requires start % SECTOR_SIZE != 0 && start + 3 * BLOCK_SIZE < USIZE_LIMIT
    ensures var k, n := BLOCK_SIZE, start - start % SECTOR_SIZE + 3 * BLOCK_SIZE;
            var disk: seq<Byte> := seq(n, _ => 7);
            && n % SECTOR_SIZE == 0 && SpanEnd(start + k - 1, 1) <= n && start + k + BLOCK_SIZE <= n
            && var contents := map[k := Slice(disk, start + k, BLOCK_SIZE)];
               var disk' := AfterWrite(disk, start + k - 1, [7], true);
               && Coherent(contents, disk, start, None) && AlignedKeys(contents)
               && Invalidated(contents, k - 1, 1) == contents && !Coherent(contents, disk', start, None)
  {
    var n := start - start % SECTOR_SIZE + 3 * BLOCK_SIZE;
    assert n == (start / SECTOR_SIZE + 24) * SECTOR_SIZE;
    WholeMultiple(start / SECTOR_SIZE + 24);
    SpanCrosses(start);
    SpanInCapacity(start + BLOCK_SIZE - 1, 1, n);
    ZeroedBlockIsStale(seq(n, _ => 7), start);
  }

  lemma SpanCrosses(start: nat)
    requires start % SECTOR_SIZE != 0
    ensures var at := start + BLOCK_SIZE - 1;
            SpanStart(at) <= start + BLOCK_SIZE < SpanEnd(at, 1) && !WholeSectors(at, 1)
  {
    SpanFacts(start + BLOCK_SIZE - 1, 1);
  }

  lemma ZeroedBlockIsStale(disk: seq<Byte>, start: nat)
    requires SpanEnd(start + BLOCK_SIZE - 1, 1) <= |disk| && start + 2 * BLOCK_SIZE <= |disk| < USIZE_LIMIT
    requires SpanStart(start + BLOCK_SIZE - 1) <= start + BLOCK_SIZE < SpanEnd(start + BLOCK_SIZE - 1, 1)
    requires !WholeSectors(start + BLOCK_SIZE - 1, 1) && disk[start + BLOCK_SIZE] != 0
    ensures var contents := map[BLOCK_SIZE := Slice(disk, start + BLOCK_SIZE, BLOCK_SIZE)];
            var disk' := AfterWrite(disk, start + BLOCK_SIZE - 1, [7], true);
            && Coherent(contents, disk, start, None) && AlignedKeys(contents)
            && Invalidated(contents, BLOCK_SIZE - 1, 1) == contents && !Coherent(contents, disk', start, None)
  {
    var contents := map[BLOCK_SIZE := Slice(disk, start + BLOCK_SIZE, BLOCK_SIZE)];
    var disk' := AfterWrite(disk, start + BLOCK_SIZE - 1, [7], true);
    ZeroedByte(disk, start + BLOCK_SIZE - 1);
    StaleByte(contents, disk, disk', start, None, BLOCK_SIZE);
  }

  lemma ZeroedByte(disk: seq<Byte>, at: nat)
    requires SpanEnd(at, 1) <= |disk| && SpanStart(at) <= at + 1 < SpanEnd(at, 1) && !WholeSectors(at, 1)
    ensures |AfterWrite(disk, at, [7], true)| == |disk| && AfterWrite(disk, at, [7], true)[at + 1] == 0
  {
    AfterWriteBytes(disk, at, [7], true);
  }

  /** A cached block whose first byte has changed on the device is stale. */
  lemma StaleByte(contents: map<nat, seq<Byte>>, disk: seq<Byte>, disk': seq<Byte>, start: nat, limit: Option<nat>,
                  k: nat)
    requires k in contents && Fresh(contents[k], disk, start, limit, k) && |disk'| == |disk|
    requires disk'[start + k] != disk[start + k]
    ensures !Fresh(contents[k], disk', start, limit, k) && !Coherent(contents, disk', start, limit)
  {
    assert contents[k][0] == disk[start + k];
    assert Slice(disk', start + k, BLOCK_SIZE)[0] == disk'[start + k];
    assert CoherentGuard(Key, contents, disk');
  }
}

/**
 The two locks of a block range under every interleaving. Each critical section of the cache
 lock is one step; device requests are steps of the thread that holds the io lock.
 */
module BlockCoherence {
  import opened Common
  import opened BlockCaches
  import opened VirtioBlocks
  import opened BlockRanges

  /** Where a thread is in a single read, in a batched read or in a write. */
  datatype Pc =
    | Resting
    | Missed(offset: nat)
    | Looking(offset: nat)
    | Fetching(offset: nat)
    | Filling(offset: nat, count: nat, data: seq<Byte>)
    | BatchMissed(offsets: seq<nat>)
    | BatchLooking(offsets: seq<nat>)
    | BatchFetching(missing: seq<nat>)
    | BatchFilling(missing: seq<nat>, offset: nat, count: nat, data: seq<Byte>)
    | WriteWaiting(offset: nat, data: seq<Byte>)
    | WriteLocked(offset: nat, data: seq<Byte>)
    | WriteCleared(offset: nat, data: seq<Byte>)
  {
    /** The thread holds the io lock here. */
    predicate Locked() {
      || Looking? || Fetching? || Filling? || BatchLooking? || BatchFetching? || BatchFilling?
      || WriteLocked? || WriteCleared?
    }
  }

  datatype State = State(disk: seq<Byte>, start: nat, limit: Option<nat>, cache: map<nat, seq<Byte>>,
                         io: Option<nat>, threads: seq<Pc>)

  datatype Step =
    | BeginRead(thread: nat, offset: nat)
    | BeginBatch(thread: nat, offsets: seq<nat>)
    | BeginWrite(thread: nat, offset: nat, data: seq<Byte>)
    | TakeIo(thread: nat)
    | LookAgain(thread: nat)
    | FetchFails(thread: nat)
    | Fetch(thread: nat, count: nat)
    | Fill(thread: nat, evicted: set<nat>)
    | FetchRun(thread: nat, count: nat)
    | FinishBatch(thread: nat)
    | Invalidate(thread: nat)
    | WriteDevice(thread: nat, after: seq<Byte>)

  predicate AlignedBlock(offset: nat) {
    offset % BLOCK_SIZE == 0 && offset < USIZE_LIMIT
  }

  /** What a write may leave on the device: anything in the sectors it touches, if it reaches the device at all. */
  ghost predicate MayLeave(disk: seq<Byte>, start: nat, limit: Option<nat>, offset: nat, len: nat, after: seq<Byte>) {
    && |after| == |disk|
    && (if len > 0 && Readable(disk, start, limit, offset, len) then Untouched(disk, after, start + offset, len)
        else after == disk)
  }

  /**
   Among them are the outcomes of the driver: the sectors with or without the old bytes around, and arbitrary
   ones.
   */
  lemma DriverOutcomes(disk: seq<Byte>, start: nat, limit: Option<nat>, offset: nat, data: seq<Byte>, readFails: bool,
                       junk: seq<Byte>)
    requires data != [] && Readable(disk, start, limit, offset, |data|) && |disk| % SECTOR_SIZE == 0
    requires |junk| == SpanEnd(start + offset, |data|) - SpanStart(start + offset)
    ensures SpanEnd(start + offset, |data|) <= |disk|
    ensures MayLeave(disk, start, limit, offset, |data|, AfterWrite(disk, start + offset, data, readFails))
    ensures MayLeave(disk, start, limit, offset, |data|, Overlay(disk, SpanStart(start + offset), junk))
    ensures MayLeave(disk, start, limit, offset, |data|, disk)
  {
    SpanInCapacity(start + offset, |data|, |disk|);
    SpanFacts(start + offset, |data|);
    AfterWriteBytes(disk, start + offset, data, readFails);
    OverlayAt(disk, SpanStart(start + offset), junk);
  }

  ghost predicate Enabled(s: State, step: Step) {
    && step.thread < |s.threads|
    && var pc := s.threads[step.thread];
       match step
       case BeginRead(_, offset) => pc.Resting? && AlignedBlock(offset)
       case BeginBatch(_, offsets) => pc.Resting? && forall i :: 0 <= i < |offsets| ==> AlignedBlock(offsets[i])
       case BeginWrite(_, offset, data) => pc.Resting? && offset < USIZE_LIMIT && |data| < USIZE_LIMIT
       case TakeIo(_) => s.io.None? && (pc.Missed? || pc.BatchMissed? || pc.WriteWaiting?)
       case LookAgain(_) => pc.Looking? || pc.BatchLooking?
       case FetchFails(_) => pc.Fetching? || pc.BatchFetching?
       case Fetch(_, count) => pc.Fetching? && count > 0
           && Readable(s.disk, s.start, s.limit, pc.offset, count * BLOCK_SIZE)
       case Fill(_, _) => pc.Filling? || pc.BatchFilling?
       case FetchRun(_, count) =>
         pc.BatchFetching? && 0 < count <= |pc.missing|
         && (forall i :: 0 <= i < count ==> pc.missing[i] == pc.missing[0] + i * BLOCK_SIZE)
         && Readable(s.disk, s.start, s.limit, pc.missing[0], count * BLOCK_SIZE)
       case FinishBatch(_) => pc.BatchFetching? && pc.missing == []
       case Invalidate(_) => pc.WriteLocked?
       case WriteDevice(_, after) => pc.WriteCleared? && MayLeave(s.disk, s.start, s.limit, pc.offset, |pc.data|, after)
  }

  function SetPc(s: State, t: nat, pc: Pc): State
    requires t < |s.threads|
  {
    s.(threads := s.threads[t := pc])
  }

  function Release(s: State, t: nat): State
    requires t < |s.threads|
  {
    SetPc(s, t, Resting).(io := None)
  }

  /** The offsets that the cache does not hold. */
  function Missing(cache: map<nat, seq<Byte>>, offsets: seq<nat>): (r: seq<nat>)
    ensures forall x :: x in r <==> x in offsets && x !in cache
  {
    if offsets == [] then []
    else
      assert offsets == [offsets[0]] + offsets[1..];
      (if offsets[0] in cache then [] else [offsets[0]]) + Missing(cache, offsets[1..])
  }

  /** The blocks of a read, by offset. */
  ghost function Filled(cache: map<nat, seq<Byte>>, offset: nat, count: nat, data: seq<Byte>): map<nat, seq<Byte>> {
    if count == 0 || |data| != count * BLOCK_SIZE then cache
    else
      var at := (count - 1) * BLOCK_SIZE;
      Filled(cache, offset, count - 1, data[..at])[offset + at := data[at..]]
  }

  ghost function Apply(s: State, step: Step): State
    requires Enabled(s, step)
  {
    var t := step.thread;
    var pc := s.threads[t];
    match step
    case BeginRead(_, offset) => if offset in s.cache then s else SetPc(s, t, Missed(offset))
    case BeginBatch(_, offsets) =>
      if Missing(s.cache, offsets) == [] then s else SetPc(s, t, BatchMissed(Missing(s.cache, offsets)))
    case BeginWrite(_, offset, data) => SetPc(s, t, WriteWaiting(offset, data))
    case TakeIo(_) =>
      var locked := match pc
                    case Missed(offset) => Looking(offset)
                    case BatchMissed(offsets) => BatchLooking(offsets)
                    case _ => WriteLocked(pc.offset, pc.data);
      SetPc(s, t, locked).(io := Some(t))
    case LookAgain(_) =>
      if pc.Looking? then (if pc.offset in s.cache then Release(s, t) else SetPc(s, t, Fetching(pc.offset)))
      else SetPc(s, t, BatchFetching(Missing(s.cache, pc.offsets)))
    case FetchFails(_) => Release(s, t)
    case Fetch(_, count) =>
      SetPc(s, t, Filling(pc.offset, count, Slice(s.disk, s.start + pc.offset, count * BLOCK_SIZE)))
    case Fill(_, evicted) =>
      var filled := s.(cache := Filled(s.cache, pc.offset, pc.count, pc.data) - evicted);
      if pc.Filling? then Release(filled, t) else SetPc(filled, t, BatchFetching(pc.missing))
    case FetchRun(_, count) =>
      var data := Slice(s.disk, s.start + pc.missing[0], count * BLOCK_SIZE);
      SetPc(s, t, BatchFilling(pc.missing[count..], pc.missing[0], count, data))
    case FinishBatch(_) => Release(s, t)
    case Invalidate(_) =>
      SetPc(s, t, WriteCleared(pc.offset, pc.data)).(cache := Invalidated(s.cache, pc.offset, |pc.data|))
    case WriteDevice(_, after) => Release(s, t).(disk := after)
  }

  // ---------------------------------------------------------------- the invariant

  /** What a thread may rely on while it holds the io lock. */
  ghost predicate ThreadInv(s: State, pc: Pc) {
    match pc
    case Resting => true
    case Missed(offset) => AlignedBlock(offset)
    case Looking(offset) => AlignedBlock(offset)
    case Fetching(offset) => AlignedBlock(offset)
    case Filling(offset, count, data) => FetchedData(s, offset, count, data)
    case BatchMissed(offsets) => forall x :: x in offsets ==> AlignedBlock(x)
    case BatchLooking(offsets) => forall x :: x in offsets ==> AlignedBlock(x)
    case BatchFetching(missing) => forall x :: x in missing ==> AlignedBlock(x)
    case BatchFilling(missing, offset, count, data) =>
      FetchedData(s, offset, count, data) && forall x :: x in missing ==> AlignedBlock(x)
    case WriteWaiting(offset, data) => offset < USIZE_LIMIT && |data| < USIZE_LIMIT
    case WriteLocked(offset, data) => offset < USIZE_LIMIT && |data| < USIZE_LIMIT
    case WriteCleared(offset, data) =>
      offset < USIZE_LIMIT && |data| < USIZE_LIMIT && forall k :: k in s.cache ==> !Hit(k, offset, offset + |data|)
  }

  ghost predicate FetchedData(s: State, offset: nat, count: nat, data: seq<Byte>) {
    && AlignedBlock(offset) && Readable(s.disk, s.start, s.limit, offset, count * BLOCK_SIZE)
    && data == Slice(s.disk, s.start + offset, count * BLOCK_SIZE)
  }

  ghost predicate Inv(s: State) {
    && |s.disk| < USIZE_LIMIT && s.start % SECTOR_SIZE == 0
    && Coherent(s.cache, s.disk, s.start, s.limit) && AlignedKeys(s.cache)
    && (forall t :: 0 <= t < |s.threads| ==> ThreadInv(s, s.threads[t]))
    && (forall t :: 0 <= t < |s.threads| && s.threads[t].Locked() ==> s.io == Some(t))
  }

  lemma {:induction false} FilledCoherent(cache: map<nat, seq<Byte>>, s: State, offset: nat, count: nat,
                                          data: seq<Byte>)
    requires |s.disk| < USIZE_LIMIT && Coherent(cache, s.disk, s.start, s.limit)
    requires FetchedData(s, offset, count, data) && AlignedKeys(cache)
    ensures Coherent(Filled(cache, offset, count, data), s.disk, s.start, s.limit)
    ensures AlignedKeys(Filled(cache, offset, count, data))
    decreases count
  {
    if count > 0 {
      var at := (count - 1) * BLOCK_SIZE;
      BlockOfRun(s.disk, s.start, s.limit, offset, count, count - 1);
      assert data[..at] == Slice(s.disk, s.start + offset, at);
      assert data[at..] == data[at..at + BLOCK_SIZE];
      FilledCoherent(cache, s, offset, count - 1, data[..at]);
      var before := Filled(cache, offset, count - 1, data[..at]);
      CoherentInsert(before, {}, s.disk, s.start, s.limit, offset + at);
      AlignedInsert(before, {}, offset + at, data[at..]);
      assert before - {} == before;
    }
  }

  lemma CoherentWithout(cache: map<nat, seq<Byte>>, evicted: set<nat>, disk: seq<Byte>, start: nat, limit: Option<nat>)
    requires Coherent(cache, disk, start, limit) && AlignedKeys(cache)
    ensures Coherent(cache - evicted, disk, start, limit) && AlignedKeys(cache - evicted)
  {
    assert CoherentGuard(Key, cache, disk);
    assert KeysGuard(Key, cache);
  }

  /** A step that moves one thread and leaves cache and device alone. */
  lemma MoveKeeps(s: State, t: nat, pc: Pc, io: Option<nat>)
    requires Inv(s) && t < |s.threads| && ThreadInv(s, pc)
    requires io == s.io || (s.io.None? && io == Some(t)) || (s.io == Some(t) && io.None?)
    requires pc.Locked() ==> io == Some(t)
    ensures Inv(SetPc(s, t, pc).(io := io))
  {
    var u := SetPc(s, t, pc).(io := io);
    forall i | 0 <= i < |u.threads|
      ensures ThreadInv(u, u.threads[i]) && (u.threads[i].Locked() ==> u.io == Some(i))
    {
      assert ThreadInv(s, s.threads[i]);
    }
  }

  lemma BeginKeeps(s: State, step: Step)
    requires Inv(s) && Enabled(s, step) && (step.BeginRead? || step.BeginBatch? || step.BeginWrite? || step.TakeIo?)
    ensures Inv(Apply(s, step))
  {
    var t := step.thread;
    assert ThreadInv(s, s.threads[t]);
    if step.BeginBatch? {
      assert forall x :: x in step.offsets ==> AlignedBlock(x);
    }
    var u := Apply(s, step);
    MoveKeeps(s, t, u.threads[t], u.io);
    assert u == SetPc(s, t, u.threads[t]).(io := u.io);
  }

  lemma FetchKeeps(s: State, step: Step)
    requires Inv(s) && Enabled(s, step)
    requires step.LookAgain? || step.FetchFails? || step.Fetch? || step.FetchRun? || step.FinishBatch?
    ensures Inv(Apply(s, step))
  {
    var t := step.thread;
    assert ThreadInv(s, s.threads[t]);
    assert s.threads[t].Locked();
    if step.FetchRun? {
      assert s.threads[t].missing[0] in s.threads[t].missing;
      assert forall x :: x in s.threads[t].missing[step.count..] ==> x in s.threads[t].missing;
    }
    var u := Apply(s, step);
    MoveKeeps(s, t, u.threads[t], u.io);
    assert u == SetPc(s, t, u.threads[t]).(io := u.io);
  }

  /** What a thread without the io lock relies on concerns neither cache nor device. */
  lemma UnlockedCarries(s: State, u: State, pc: Pc)
    requires ThreadInv(s, pc) && !pc.Locked()
    ensures ThreadInv(u, pc)
  {
  }

  /** A step of the lock holder that changes cache or device. */
  lemma HolderStepKeeps(s: State, u: State, t: nat)
    requires Inv(s) && t < |s.threads| && s.threads[t].Locked()
    requires |u.threads| == |s.threads| && u.threads == s.threads[t := u.threads[t]]
    requires ThreadInv(u, u.threads[t]) && (u.threads[t].Locked() ==> u.io == Some(t))
    requires |u.disk| < USIZE_LIMIT && u.start == s.start
    requires Coherent(u.cache, u.disk, u.start, u.limit) && AlignedKeys(u.cache)
    ensures Inv(u)
  {
    forall i | 0 <= i < |u.threads|
      ensures ThreadInv(u, u.threads[i]) && (u.threads[i].Locked() ==> u.io == Some(i))
    {
      if i != t {
        assert !s.threads[i].Locked();
        UnlockedCarries(s, u, s.threads[i]);
      }
    }
  }

  lemma FillKeeps(s: State, t: nat, evicted: set<nat>)
    requires Inv(s) && Enabled(s, Fill(t, evicted))
    ensures Inv(Apply(s, Fill(t, evicted)))
  {
    var pc := s.threads[t];
    assert ThreadInv(s, pc);
    FilledCoherent(s.cache, s, pc.offset, pc.count, pc.data);
    CoherentWithout(Filled(s.cache, pc.offset, pc.count, pc.data), evicted, s.disk, s.start, s.limit);
    HolderStepKeeps(s, Apply(s, Fill(t, evicted)), t);
  }

  lemma InvalidateKeeps(s: State, t: nat)
    requires Inv(s) && Enabled(s, Invalidate(t))
    ensures Inv(Apply(s, Invalidate(t)))
  {
    var pc := s.threads[t];
    assert ThreadInv(s, pc);
    CoherentAfterWrite(s.cache, s.disk, s.disk, s.start, s.limit, pc.offset, |pc.data|);
    HolderStepKeeps(s, Apply(s, Invalidate(t)), t);
  }

  lemma WriteDeviceKeeps(s: State, t: nat, after: seq<Byte>)
    requires Inv(s) && Enabled(s, WriteDevice(t, after))
    ensures Inv(Apply(s, WriteDevice(t, after)))
  {
    var pc := s.threads[t];
    assert ThreadInv(s, pc);
    if pc.data != [] && Readable(s.disk, s.start, s.limit, pc.offset, |pc.data|) {
      CoherentAfterWrite(s.cache, s.disk, after, s.start, s.limit, pc.offset, |pc.data|);
      assert Invalidated(s.cache, pc.offset, |pc.data|) == s.cache;
    }
    HolderStepKeeps(s, Apply(s, WriteDevice(t, after)), t);
  }

  /** A run through states in which every step is enabled. */
  ghost predicate IsRun(s: State, steps: seq<Step>, t: State)
    decreases |steps|
  {
    if steps == [] then s == t
    else Enabled(s, steps[0]) && IsRun(Apply(s, steps[0]), steps[1..], t)
  }

  function Boot(disk: seq<Byte>, start: nat, limit: Option<nat>, threads: nat): State {
    State(disk, start, limit, map[], None, seq(threads, _ => Resting))
  }

  /**
   Coherence: at every point of every interleaving each cached block equals the device, also between an invalidation
   and the write, after a write that failed halfway, and after one that zeroed the rest of its sectors.
   */
  lemma AlwaysCoherent(disk: seq<Byte>, start: nat, limit: Option<nat>, threads: nat, steps: seq<Step>, t: State)
    requires |disk| < USIZE_LIMIT && start % SECTOR_SIZE == 0 && IsRun(Boot(disk, start, limit, threads), steps, t)
    ensures forall k :: k in t.cache ==> Fresh(t.cache[k], t.disk, t.start, t.limit, k)
  {
    RunKeeps(Boot(disk, start, limit, threads), steps, t);
    assert CoherentGuard(Key, t.cache, t.disk);
  }

  lemma {:induction false} RunKeeps(s: State, steps: seq<Step>, t: State)
    requires Inv(s) && IsRun(s, steps, t)
    ensures Inv(t)
    decreases |steps|
  {
    if steps != [] {
      var step := steps[0];
      if step.Fill? {
        FillKeeps(s, step.thread, step.evicted);
      } else if step.Invalidate? {
        InvalidateKeeps(s, step.thread);
      } else if step.WriteDevice? {
        WriteDeviceKeeps(s, step.thread, step.after);
      } else if step.BeginRead? || step.BeginBatch? || step.BeginWrite? || step.TakeIo? {
        BeginKeeps(s, step);
      } else {
        FetchKeeps(s, step);
      }
      RunKeeps(Apply(s, step), steps[1..], t);
    }
  }

  // ---------------------------------------------------------------- what the callers see

  /** The block at `k` is the `j`-th of the data that has been read at an offset. */
  ghost predicate Piece(offset: nat, count: nat, data: seq<Byte>, j: nat, k: nat, bytes: seq<Byte>) {
    && j < count && |data| == count * BLOCK_SIZE && k == offset + j * BLOCK_SIZE
    && j * BLOCK_SIZE + BLOCK_SIZE <= |data| && bytes == data[j * BLOCK_SIZE..j * BLOCK_SIZE + BLOCK_SIZE]
  }

  /** A step hands this block to its caller: it has found it in the cache, or has fetched it. */
  ghost predicate Answers(s: State, step: Step, k: nat, bytes: seq<Byte>)
    requires Enabled(s, step)
  {
    var pc := s.threads[step.thread];
    match step
    case BeginRead(_, offset) => k == offset && k in s.cache && bytes == s.cache[k]
    case BeginBatch(_, offsets) => k in offsets && k in s.cache && bytes == s.cache[k]
    case LookAgain(_) =>
      (if pc.Looking? then k == pc.offset else k in pc.offsets) && k in s.cache && bytes == s.cache[k]
    case Fill(_, _) =>
      if pc.Filling? then Piece(pc.offset, pc.count, pc.data, 0, k, bytes)
      else exists j: nat :: Piece(pc.offset, pc.count, pc.data, j, k, bytes)
    case _ => false
  }

  lemma PieceIsFresh(s: State, offset: nat, count: nat, data: seq<Byte>, j: nat, k: nat, bytes: seq<Byte>)
    requires |s.disk| < USIZE_LIMIT && FetchedData(s, offset, count, data) && Piece(offset, count, data, j, k, bytes)
    ensures Fresh(bytes, s.disk, s.start, s.limit, k)
  {
    BlockOfRun(s.disk, s.start, s.limit, offset, count, j);
  }

  /** Whatever is answered is on the device at that moment. */
  lemma AnswersAreFresh(s: State, step: Step, k: nat, bytes: seq<Byte>)
    requires Inv(s) && Enabled(s, step) && Answers(s, step, k, bytes)
    ensures Fresh(bytes, s.disk, s.start, s.limit, k)
  {
    var pc := s.threads[step.thread];
    if step.Fill? {
      assert ThreadInv(s, pc);
      var j: nat :| Piece(pc.offset, pc.count, pc.data, j, k, bytes);
      PieceIsFresh(s, pc.offset, pc.count, pc.data, j, k, bytes);
    } else {
      assert CoherentGuard(Key, s.cache, s.disk);
    }
  }

  /** What the last write to the device has left, if there has been one. */
  function LastLeft(disk: seq<Byte>, steps: seq<Step>): seq<Byte>
    decreases |steps|
  {
    if steps == [] then disk
    else LastLeft(if steps[0].WriteDevice? then steps[0].after else disk, steps[1..])
  }

  lemma {:induction false} DiskIsLastLeft(s: State, steps: seq<Step>, t: State)
    requires IsRun(s, steps, t)
    ensures t.disk == LastLeft(s.disk, steps) && t.start == s.start && t.limit == s.limit
    ensures |t.threads| == |s.threads|
    decreases |steps|
  {
    if steps != [] {
      DiskIsLastLeft(Apply(s, steps[0]), steps[1..], t);
    }
  }

  /** The last call that a thread has begun. */
  function LastCall(before: Option<Step>, steps: seq<Step>, t: nat): Option<Step>
    decreases |steps|
  {
    if steps == [] then before
    else
      var begins := (steps[0].BeginRead? || steps[0].BeginBatch? || steps[0].BeginWrite?) && steps[0].thread == t;
      LastCall(if begins then Some(steps[0]) else before, steps[1..], t)
  }

  /** Where a thread is in a call agrees with what it has been called for. */
  ghost predicate IsCallOf(pc: Pc, t: nat, call: Option<Step>) {
    match pc
    case Resting => true
    case Missed(offset) => call == Some(BeginRead(t, offset))
    case Looking(offset) => call == Some(BeginRead(t, offset))
    case Fetching(offset) => call == Some(BeginRead(t, offset))
    case Filling(offset, _, _) => call == Some(BeginRead(t, offset))
    case BatchMissed(offsets) => IsBatch(offsets, t, call)
    case BatchLooking(offsets) => IsBatch(offsets, t, call)
    case BatchFetching(missing) => IsBatch(missing, t, call)
    case BatchFilling(missing, offset, count, _) =>
      && IsBatch(missing, t, call)
      && forall j: nat :: j < count ==> IsAsked(offset, j, call)
    case WriteWaiting(offset, data) => call == Some(BeginWrite(t, offset, data))
    case WriteLocked(offset, data) => call == Some(BeginWrite(t, offset, data))
    case WriteCleared(offset, data) => call == Some(BeginWrite(t, offset, data))
  }

  ghost predicate IsBatch(offsets: seq<nat>, t: nat, call: Option<Step>) {
    && call.Some? && call.value.BeginBatch? && call.value.thread == t
    && forall x :: x in offsets ==> x in call.value.offsets
  }

  ghost predicate IsAsked(offset: nat, j: nat, call: Option<Step>) {
    call.Some? && call.value.BeginBatch? && offset + j * BLOCK_SIZE in call.value.offsets
  }

  /** A step of the thread itself keeps the agreement. */
  lemma StepKeepsCall(s: State, step: Step, call: Option<Step>)
    requires Enabled(s, step) && IsCallOf(s.threads[step.thread], step.thread, call)
    ensures var begins := step.BeginRead? || step.BeginBatch? || step.BeginWrite?;
            IsCallOf(Apply(s, step).threads[step.thread], step.thread, if begins then Some(step) else call)
  {
    if step.FetchRun? {
      var missing, rest := s.threads[step.thread].missing, s.threads[step.thread].missing[step.count..];
      assert forall x :: x in rest ==> x in missing;
      forall j: nat | j < step.count
        ensures IsAsked(missing[0], j, call)
      {
        assert missing[j] in missing && missing[j] == missing[0] + j * BLOCK_SIZE;
      }
    }
  }

  lemma {:induction false} CallsAreRecorded(s: State, steps: seq<Step>, u: State, t: nat, before: Option<Step>)
    requires IsRun(s, steps, u) && t < |s.threads| && IsCallOf(s.threads[t], t, before)
    ensures t < |u.threads| && IsCallOf(u.threads[t], t, LastCall(before, steps, t))
    decreases |steps|
  {
    if steps != [] {
      if steps[0].thread == t {
        StepKeepsCall(s, steps[0], before);
      }
      var begins := (steps[0].BeginRead? || steps[0].BeginBatch? || steps[0].BeginWrite?) && steps[0].thread == t;
      CallsAreRecorded(Apply(s, steps[0]), steps[1..], u, t, if begins then Some(steps[0]) else before);
    }
  }

  /**
   What a reader is given. After any interleaving, whatever a step answers is a block that the thread's last call asked
   for, and it is what the last write to the device has left there.
   */
  lemma ReadersSeeTheDevice(disk: seq<Byte>, start: nat, limit: Option<nat>, threads: nat, steps: seq<Step>, u: State,
                            step: Step, k: nat, bytes: seq<Byte>)
    requires |disk| < USIZE_LIMIT && start % SECTOR_SIZE == 0 && IsRun(Boot(disk, start, limit, threads), steps, u)
    requires Enabled(u, step) && Answers(u, step, k, bytes)
    ensures var now, call := LastLeft(disk, steps), LastCall(None, steps + [step], step.thread);
            && start + k + BLOCK_SIZE <= |now| && (limit.Some? ==> k + BLOCK_SIZE <= limit.value)
            && bytes == now[start + k..start + k + BLOCK_SIZE]
            && (call == Some(BeginRead(step.thread, k))
                || (call.Some? && call.value.BeginBatch? && call.value.thread == step.thread
                    && k in call.value.offsets))
  {
    var boot, t := Boot(disk, start, limit, threads), step.thread;
    RunKeeps(boot, steps, u);
    AnswersAreFresh(u, step, k, bytes);
    DiskIsLastLeft(boot, steps, u);
    CallsAreRecorded(boot, steps, u, t, None);
    LastCallAppend(None, steps, step, t);
    AnswersAreAsked(u, step, k, bytes, LastCall(None, steps, t));
  }

  /** A step answers only what the call asks for. */
  lemma AnswersAreAsked(s: State, step: Step, k: nat, bytes: seq<Byte>, call: Option<Step>)
    requires Enabled(s, step) && Answers(s, step, k, bytes) && IsCallOf(s.threads[step.thread], step.thread, call)
    ensures var begins := step.BeginRead? || step.BeginBatch? || step.BeginWrite?;
            var now := if begins then Some(step) else call;
            now == Some(BeginRead(step.thread, k))
            || (now.Some? && now.value.BeginBatch? && now.value.thread == step.thread && k in now.value.offsets)
  {
    var pc := s.threads[step.thread];
    if step.Fill? && pc.BatchFilling? {
      var j: nat :| Piece(pc.offset, pc.count, pc.data, j, k, bytes);
      assert IsAsked(pc.offset, j, call);
    }
  }

  lemma {:induction false} LastCallAppend(before: Option<Step>, steps: seq<Step>, step: Step, t: nat)
    ensures LastCall(before, steps + [step], t)
            == if (step.BeginRead? || step.BeginBatch? || step.BeginWrite?) && step.thread == t then Some(step)
               else LastCall(before, steps, t)
    decreases |steps|
  {
    if steps == [] {
      assert [step][1..] == [];
    } else {
      assert (steps + [step])[1..] == steps[1..] + [step];
      var begins := (steps[0].BeginRead? || steps[0].BeginBatch? || steps[0].BeginWrite?) && steps[0].thread == t;
      LastCallAppend(if begins then Some(steps[0]) else before, steps[1..], step, t);
    }
  }

  /**
   What a writer leaves: a write to the device belongs to the thread's last call, and bytes outside the sectors of that
   call, or of a call that is not inside the range and the device, are those of the last write before.
   */
  lemma WritersLeaveTheRest(disk: seq<Byte>, start: nat, limit: Option<nat>, threads: nat, steps: seq<Step>, u: State,
                            t: nat, after: seq<Byte>)
    requires IsRun(Boot(disk, start, limit, threads), steps, u) && Enabled(u, WriteDevice(t, after))
    ensures var now, call := LastLeft(disk, steps), LastCall(None, steps, t);
            && call.Some? && call.value.BeginWrite? && |after| == |now|
            && forall i :: 0 <= i < |now| && !(SpanStart(start + call.value.offset) <= i
                                              < SpanEnd(start + call.value.offset, |call.value.data|)) ==>
                 after[i] == now[i]
  {
    var boot := Boot(disk, start, limit, threads);
    DiskIsLastLeft(boot, steps, u);
    CallsAreRecorded(boot, steps, u, t, None);
    assert UntouchedGuard(Key, u.disk, after);
  }

  /** Filling caches every block of the run that is not evicted. */
  lemma FillCaches(s: State, t: nat, evicted: set<nat>, j: nat)
    requires Inv(s) && Enabled(s, Fill(t, evicted)) && j < s.threads[t].count
    ensures var k := s.threads[t].offset + j * BLOCK_SIZE;
            k !in evicted ==> k in Apply(s, Fill(t, evicted)).cache
  {
    var pc := s.threads[t];
    assert ThreadInv(s, pc);
    FilledHas(s.cache, pc.offset, pc.count, pc.data, j);
  }

  lemma {:induction false} FilledHas(cache: map<nat, seq<Byte>>, offset: nat, count: nat, data: seq<Byte>, j: nat)
    requires |data| == count * BLOCK_SIZE && j < count
    ensures offset + j * BLOCK_SIZE in Filled(cache, offset, count, data)
    decreases count
  {
    if j < count - 1 {
      FilledHas(cache, offset, count - 1, data[..(count - 1) * BLOCK_SIZE], j);
    }
  }
}
