/**
 The frame allocator: one ordered set of block starts per order, and the greedy
 decomposition of an added range that both allocators use.
 */
module RangeDecomposition {
  import opened Bits
  import opened Common
  import opened BuddyBlocks

  /** The lowest set bit of a cursor; a cursor at 0 is given the fixed value 32. */
  function CursorLowBit(cur: nat): (low: nat)
  {
    if cur > 0 then LowBit(cur) else 32
  }

  /** The size of the block cut off at `cur`, with at most `orders` orders. */
  function ChunkSize(cur: nat, end: nat, orders: nat): nat
    requires cur < end && orders > 0
  {
    Min(Min(CursorLowBit(cur), PrevPow2(end - cur)), Pow2(orders - 1))
  }

  /** The exponent of `ChunkSize`. */
  function ChunkOrder(cur: nat, end: nat, orders: nat): nat
    requires cur < end && orders > 0
  {
    Min(Min(if cur > 0 then TrailingZeros(cur) else 5, Log2(end - cur)), orders - 1)
  }

  lemma MinOfPow2(j: nat, k: nat)
    ensures Min(Pow2(j), Pow2(k)) == Pow2(Min(j, k))
  {
    if j <= k {
      Pow2Monotone(j, k);
    } else {
      Pow2Monotone(k, j);
    }
  }

  /** Each cut is an aligned block that fits, and it cannot be doubled. */
  lemma ChunkFacts(cur: nat, end: nat, orders: nat)
    requires cur < end && orders > 0
    ensures var k := ChunkOrder(cur, end, orders);
            && ChunkSize(cur, end, orders) == Pow2(k)
            && TrailingZeros(Pow2(k)) == k
            && k < orders
            && Aligned(cur, k)
            && cur + Pow2(k) <= end
            && (k == orders - 1 || !Aligned(cur, k + 1) || end < cur + 2 * Pow2(k) || (cur == 0 && k == 5))
  {
    ChunkSizeIs(cur, end, orders);
    var k := ChunkOrder(cur, end, orders);
    TrailingZerosOfPow2(k);
    PrevPow2Bounds(end - cur);
    Pow2Monotone(k, Log2(end - cur));
    if cur > 0 {
      LowBitIsPow2(cur);
      AlignedWeaken(cur, k, TrailingZeros(cur));
    } else {
      ZeroAligned(k);
    }
  }

  lemma ChunkSizeIs(cur: nat, end: nat, orders: nat)
    requires cur < end && orders > 0
    ensures ChunkSize(cur, end, orders) == Pow2(ChunkOrder(cur, end, orders))
  {
    var low := if cur > 0 then TrailingZeros(cur) else 5;
    PrevPow2Bounds(end - cur);
    if cur > 0 {
      LowBitIsPow2(cur);
    } else {
      assert Pow2(5) == 32;
    }
    MinOfPow2(low, Log2(end - cur));
    MinOfPow2(Min(low, Log2(end - cur)), orders - 1);
  }

  lemma {:induction false} ZeroAligned(k: nat)
    ensures Aligned(0, k)
  {
    if k > 0 {
      ZeroAligned(k - 1);
    }
  }

  /** The blocks that the range [cur, end) is cut into. */
  ghost function Decompose(cur: nat, end: nat, orders: nat): set<Block>
    requires orders > 0
    decreases end - cur
  {
    if cur >= end then {}
    else
      ChunkFacts(cur, end, orders);
      {Block(cur, ChunkOrder(cur, end, orders))}
      + Decompose(cur + Pow2(ChunkOrder(cur, end, orders)), end, orders)
  }

  /** Moving the first block of the cut over to those already there. */
  lemma DecomposeStep(cur: nat, end: nat, orders: nat, done: set<Block>)
    requires cur < end && orders > 0
    ensures var k := ChunkOrder(cur, end, orders);
            cur + Pow2(k) <= end
            && done + Decompose(cur, end, orders) == (done + {Block(cur, k)}) + Decompose(cur + Pow2(k), end, orders)
  {
    ChunkFacts(cur, end, orders);
  }

  lemma DecomposeDone(end: nat, orders: nat, done: set<Block>)
    requires orders > 0
    ensures done + Decompose(end, end, orders) == done
  {
  }

  /** The blocks cover [cur, end) exactly, each unit once. */
  ghost predicate Partitions(bs: set<Block>, cur: nat, end: nat, orders: nat) {
    && WellFormed(bs, orders)
    && (forall x: nat :: Covered(bs, x) <==> cur <= x < end)
    && (forall b :: b in bs ==> cur <= b.start && b.End() <= end)
    && (cur <= end ==> Units(bs) == end - cur)
  }

  lemma PrependBlock(first: Block, rest: set<Block>, end: nat, orders: nat)
    requires Partitions(rest, first.End(), end, orders)
    requires first.IsAligned() && first.order < orders && first.End() <= end
    ensures Partitions({first} + rest, first.start, end, orders)
  {
    assert first !in rest;
    UnitsAdd(rest, first);
    assert rest + {first} == {first} + rest;
    forall x: nat
      ensures Covered({first} + rest, x) <==> first.start <= x < end
    {
      PrependCover(first, rest, x);
    }
  }

  lemma PrependCover(first: Block, rest: set<Block>, x: nat)
    ensures Covered({first} + rest, x) <==> first.Has(x) || Covered(rest, x)
  {
    var bs := {first} + rest;
    if Covered(rest, x) {
      var b :| b in rest && b.Has(x);
      assert b in bs;
    }
    assert first in bs;
  }

  /** The blocks partition the range exactly. */
  lemma {:induction false} DecomposePartition(cur: nat, end: nat, orders: nat)
    requires orders > 0
    ensures Partitions(Decompose(cur, end, orders), cur, end, orders)
    decreases end - cur
  {
    if cur < end {
      ChunkFacts(cur, end, orders);
      var first := Block(cur, ChunkOrder(cur, end, orders));
      DecomposePartition(first.End(), end, orders);
      PrependBlock(first, Decompose(first.End(), end, orders), end, orders);
    } else {
      assert forall x: nat :: !Covered(Decompose(cur, end, orders), x);
    }
  }

  /** No block of a decomposition could be doubled inside the range. */
  lemma {:induction false} DecomposeMaximal(cur: nat, end: nat, orders: nat, b: Block)
    requires orders > 0 && b in Decompose(cur, end, orders)
    ensures b.order == orders - 1 || !Aligned(b.start, b.order + 1) || end < b.start + 2 * b.Size()
            || (b.start == 0 && b.order == 5)
    decreases end - cur
  {
    ChunkFacts(cur, end, orders);
    var first := Block(cur, ChunkOrder(cur, end, orders));
    if b != first {
      DecomposeMaximal(first.End(), end, orders, b);
    }
  }

  /** The fixed value 32 leaves the sibling pair 0 and 32 behind. */
  predicate LeavesPair(start: nat, end: nat, orders: nat) {
    start == 0 && end >= 64 && orders > 6
  }

  /** The decomposition has no mergeable pair exactly when the range is not one that starts at 0 and passes 64. */
  lemma DecomposeCanonicalIff(start: nat, end: nat, orders: nat)
    requires orders > 0
    ensures Canonical(Decompose(start, end, orders), orders - 1) <==> !LeavesPair(start, end, orders)
  {
    DecomposePartition(start, end, orders);
    if LeavesPair(start, end, orders) {
      PairAtZero(end, orders);
    } else {
      var bs := Decompose(start, end, orders);
      forall b | b in bs
        ensures Undoublable(b, end, orders)
      {
        DecomposeMaximal(start, end, orders, b);
        assert b == Block(0, 5) ==> start == 0 && (orders <= 6 || end < 64);
        assert Pow2(5) == 32;
      }
      forall b | b in bs && b.order < orders - 1
        ensures b.Buddy() !in bs
      {
        NoPairWhenUndoublable(bs, b, end, orders);
      }
    }
  }

  predicate Undoublable(b: Block, end: nat, orders: nat) {
    b.order >= orders - 1 || !Aligned(b.start, b.order + 1) || end < b.start + 2 * b.Size()
  }

  lemma NoPairWhenUndoublable(bs: set<Block>, b: Block, end: nat, orders: nat)
    requires b in bs && b.IsAligned() && b.order < orders - 1
    requires forall c :: c in bs ==> c.End() <= end && Undoublable(c, end, orders)
    ensures b.Buddy() !in bs
  {
    BuddyHalves(b);
    var l, r := b.Parent().Left(), b.Parent().Right();
    assert l in {b, b.Buddy()} && r in {b, b.Buddy()};
    assert r.End() == l.start + 2 * l.Size();
    assert l in bs && r in bs ==> !Undoublable(l, end, orders);
  }

  lemma PairAtZero(end: nat, orders: nat)
    requires end >= 64 && orders > 6
    ensures Block(0, 5) in Decompose(0, end, orders) && Block(0, 5).Buddy() in Decompose(0, end, orders)
  {
    PrevPow2Bounds(end);
    PrevPow2Bounds(end - 32);
    assert Pow2(5) == 32 && Block(0, 5).Buddy() == Block(32, 5);
    LogAtLeast(end, 6);
    LogAtLeast(end - 32, 5);
    assert TrailingZeros(32) == 5;
    assert ChunkOrder(0, end, orders) == 5;
    assert ChunkOrder(32, end, orders) == 5;
    assert Decompose(0, end, orders) == {Block(0, 5)} + Decompose(32, end, orders);
  }

  lemma {:induction false} LogAtLeast(x: nat, k: nat)
    requires x >= Pow2(k)
    ensures Log2(x) >= k
    decreases k
  {
    if k > 0 {
      LogAtLeast(x / 2, k - 1);
    }
  }
}

module FrameAllocators {
  import opened Bits
  import opened Common
  import opened BuddyBlocks
  import opened RangeDecomposition

  /** The blocks held by one set of starts per order. */
  ghost function BlocksOf(lists: seq<set<nat>>): set<Block> {
    set k: nat, s: nat | k < |lists| && s in lists[k] :: Block(s, k)
  }

  lemma InsertStart(lists: seq<set<nat>>, k: nat, s: nat)
    requires k < |lists|
    ensures BlocksOf(lists[k := lists[k] + {s}]) == BlocksOf(lists) + {Block(s, k)}
  {
  }

  lemma RemoveStart(lists: seq<set<nat>>, k: nat, s: nat)
    requires k < |lists|
    ensures BlocksOf(lists[k := lists[k] - {s}]) == BlocksOf(lists) - {Block(s, k)}
  {
  }

  // ---------------------------------------------------------------- the merge loop

  /** The merge loop of the frame allocator: it runs through the top order and then drops the block. */
  ghost function FrameMerge(free: set<Block>, b: Block, orders: nat): set<Block>
    decreases orders - b.order
  {
    if b.order >= orders then free
    else if b.Buddy() in free then FrameMerge(free - {b.Buddy()}, b.Parent(), orders)
    else free + {b}
  }

  /** From the order of `b` to the top, the buddy of the enclosing aligned block is free. */
  ghost predicate MergesOut(free: set<Block>, b: Block, orders: nat) {
    forall j {:trigger Floor(b.start, j)} ::
      b.order <= j < orders ==> Block(Floor(b.start, j), j).Buddy() in free
  }

  lemma {:induction false} FloorOfAligned(x: nat, j: nat)
    requires Aligned(x, j)
    ensures Floor(x, j) == x
    decreases j
  {
    if j > 0 {
      FloorOfAligned(x / 2, j - 1);
    }
  }

  /** Blocks of higher order that hold a unit of an aligned block hold its parent too. */
  lemma FloorOfParent(b: Block, j: nat)
    requires b.IsAligned() && b.order < j
    ensures Floor(b.Parent().start, j) == Floor(b.start, j)
  {
    BuddyHalves(b);
    var p := b.Parent();
    FloorBounds(b.start, j);
    FloorBounds(p.start, j);
    var f, g := Block(Floor(b.start, j), j), Block(Floor(p.start, j), j);
    assert b == p.Left() || b == p.Right();
    assert !Apart(p, f);
    Nested(p, f);
    Nested(f, g);
  }

  lemma MergesOutStep(free: set<Block>, b: Block, orders: nat)
    requires b.IsAligned() && b.order < orders
    ensures MergesOut(free, b, orders)
            <==> b.Buddy() in free && MergesOut(free - {b.Buddy()}, b.Parent(), orders)
  {
    FloorOfAligned(b.start, b.order);
    var rest := free - {b.Buddy()};
    if MergesOut(free, b, orders) {
      assert Block(Floor(b.start, b.order), b.order).Buddy() in free;
      forall j {:trigger Floor(b.Parent().start, j)} | b.order + 1 <= j < orders
        ensures Block(Floor(b.Parent().start, j), j).Buddy() in rest
      {
        FloorOfParent(b, j);
        assert Block(Floor(b.start, j), j).Buddy() in free;
      }
    }
    if b.Buddy() in free && MergesOut(rest, b.Parent(), orders) {
      forall j {:trigger Floor(b.start, j)} | b.order <= j < orders
        ensures Block(Floor(b.start, j), j).Buddy() in free
      {
        if j > b.order {
          FloorOfParent(b, j);
          assert Block(Floor(b.Parent().start, j), j).Buddy() in rest;
        }
      }
    }
  }

  /** Short of the top, the loop is the merge of the buddy system. */
  lemma {:induction false} FrameMergeIsMergeUp(free: set<Block>, b: Block, orders: nat)
    requires b.IsAligned() && b.order < orders && !MergesOut(free, b, orders)
    ensures FrameMerge(free, b, orders) == MergeUp(free, b, orders - 1)
    decreases orders - b.order
  {
    MergesOutStep(free, b, orders);
    BuddyHalves(b);
    if b.Buddy() in free {
      assert b.order + 1 < orders by {
        assert b.order == orders - 1 ==> MergesOut(free - {b.Buddy()}, b.Parent(), orders);
      }
      FrameMergeIsMergeUp(free - {b.Buddy()}, b.Parent(), orders);
    }
  }

  /** Past the top, the whole pair of top-order siblings around `b` is dropped. */
  lemma {:induction false} FrameMergeDrops(free: set<Block>, b: Block, orders: nat, others: set<Block>, wide: nat)
    requires b.IsAligned() && b.order <= orders && MergesOut(free, b, orders)
    requires free !! others && b !in free + others && WellFormed(free + others + {b}, wide) && orders < wide
    ensures var lost := Block(Floor(b.start, orders), orders);
            && lost.IsAligned()
            && FrameMerge(free, b, orders) <= free
            && (forall x: nat :: lost.Has(x) ==>
                  !Covered(FrameMerge(free, b, orders) + others, x) && Covered(free + {b}, x))
            && (forall x: nat :: !lost.Has(x) ==>
                  (Covered(FrameMerge(free, b, orders) + others, x) <==> Covered(free + others + {b}, x)))
            && Units(FrameMerge(free, b, orders)) + lost.Size() == Units(free) + b.Size()
    decreases orders - b.order
  {
    var lost := Block(Floor(b.start, orders), orders);
    FloorBounds(b.start, orders);
    if b.order == orders {
      FloorOfAligned(b.start, orders);
      forall x: nat
        ensures lost.Has(x) ==> !Covered(free + others, x)
        ensures !lost.Has(x) ==> (Covered(free + others, x) <==> Covered(free + others + {b}, x))
      {
        CoverOfUnion({b}, free + others, x, wide);
        assert {b} + (free + others) == free + others + {b};
      }
    } else {
      var all := free + others + {b};
      var rest := free - {b.Buddy()};
      MergesOutStep(free, b, orders);
      BuddyHalves(b);
      MergeOneWellFormed(all, b, wide);
      assert rest + others + {b.Parent()} == MergeOne(all, b);
      FloorOfParent(b, orders);
      UnitsRemove(free, b.Buddy());
      FrameMergeDrops(rest, b.Parent(), orders, others, wide);
      forall x: nat | lost.Has(x)
        ensures Covered(free + {b}, x)
      {
        assert Covered(rest + {b.Parent()}, x);
        var c :| c in rest + {b.Parent()} && c.Has(x);
        if c == b.Parent() {
          assert b.Has(x) || b.Buddy().Has(x);
          assert b in free + {b} && b.Buddy() in free + {b};
        } else {
          assert c in free + {b};
        }
      }
    }
  }

  /** No aligned pair of top-order siblings is managed as a whole. */
  ghost predicate NoTopSiblings(managed: iset<nat>, orders: nat) {
    forall r: Block :: r.IsAligned() && r.order == orders ==> exists x: nat :: r.Has(x) && x !in managed
  }

  lemma WellFormedWider(bs: set<Block>, orders: nat, wide: nat)
    requires WellFormed(bs, orders) && orders <= wide
    ensures WellFormed(bs, wide)
  {
  }

  /** Without managed top-order siblings the merge never leaves the top order. */
  lemma NoTopSiblingsNoLoss(free: set<Block>, b: Block, orders: nat, managed: iset<nat>)
    requires b.order < orders && b !in free && WellFormed(free + {b}, orders)
    requires forall x: nat :: Covered(free + {b}, x) ==> x in managed
    requires NoTopSiblings(managed, orders)
    ensures !MergesOut(free, b, orders)
  {
    if MergesOut(free, b, orders) {
      WellFormedWider(free + {b}, orders, orders + 1);
      assert free + {} + {b} == free + {b};
      FrameMergeDrops(free, b, orders, {}, orders + 1);
      assert false;
    }
  }

  // ---------------------------------------------------------------- the allocator

  /** Well-formed sets that cover different units can be joined. */
  lemma JoinWellFormed(bs: set<Block>, cs: set<Block>, orders: nat)
    requires WellFormed(bs, orders) && WellFormed(cs, orders)
    requires forall x: nat :: !(Covered(bs, x) && Covered(cs, x))
    ensures WellFormed(bs + cs, orders) && bs !! cs
  {
    forall b, c | b in bs && c in cs
      ensures Apart(b, c) && b != c
    {
      var x := Max(b.start, c.start);
      assert b.Has(x) && c.Has(x) ==> Covered(bs, x) && Covered(cs, x);
    }
  }

  lemma CoverOfJoin(bs: set<Block>, cs: set<Block>)
    ensures forall x: nat :: Covered(bs + cs, x) <==> Covered(bs, x) || Covered(cs, x)
  {
    forall x: nat
      ensures Covered(bs + cs, x) <==> Covered(bs, x) || Covered(cs, x)
    {
      if Covered(bs, x) {
        var b :| b in bs && b.Has(x);
        assert b in bs + cs;
      }
      if Covered(cs, x) {
        var b :| b in cs && b.Has(x);
        assert b in bs + cs;
      }
    }
  }

  /** The first order from `k` on whose list is not empty, or the number of orders. */
  function FirstNonEmpty(lists: seq<set<nat>>, k: nat): (i: nat)
    ensures i >= k
    ensures forall j :: k <= j < i && j < |lists| ==> lists[j] == {}
    ensures i < |lists| ==> lists[i] != {}
    ensures i > k ==> i <= |lists|
    decreases |lists| - k
  {
    if k >= |lists| || lists[k] != {} then k else FirstNonEmpty(lists, k + 1)
  }

  class FrameAllocator {
    const orders: nat
    const freeList: array<set<nat>>
    var allocatedUnits: nat
    var total: nat
    /** The blocks handed out and not yet returned. */
    ghost var live: set<Block>
    /** The frames ever added. */
    ghost var managed: iset<nat>
    /** The number of frames dropped by merges that left the top order. */
    ghost var lost: nat

    ghost function Free(): set<Block>
      reads freeList
    {
      BlocksOf(freeList[..])
    }

    ghost predicate Valid()
      reads this, freeList
    {
      && orders > 0 && freeList.Length == orders
      && Free() !! live && WellFormed(Free() + live, orders)
      && (forall x: nat :: Covered(Free() + live, x) ==> x in managed)
      && (lost == 0 ==> forall x: nat :: x in managed ==> Covered(Free() + live, x))
      && allocatedUnits == Units(live)
      && Units(Free()) + allocatedUnits + lost == total
    }

    constructor (orders: nat)
      requires orders > 0
      ensures Valid() && fresh(freeList) && this.orders == orders
      ensures Free() == {} && live == {} && managed == iset{} && lost == 0 && total == 0
    {
      this.orders := orders;
      freeList := new set<nat>[orders](_ => {});
      allocatedUnits, total := 0, 0;
      live, managed, lost := {}, iset{}, 0;
      new;
      assert BlocksOf(freeList[..]) == {};
    }

    /** Adds the frames [start, end); the assertion `start <= end` of the source is the result `ok`. */
    method AddFrame(start: nat, end: nat) returns (ok: bool)
      requires Valid()
      requires forall x: nat :: start <= x < end ==> x !in managed
      modifies this, freeList
      ensures Valid() && live == old(live) && allocatedUnits == old(allocatedUnits) && lost == old(lost)
      ensures ok == (start <= end)
      ensures !ok ==> Free() == old(Free()) && total == old(total) && managed == old(managed)
      ensures ok ==> Free() == old(Free()) + Decompose(start, end, orders)
      ensures ok ==> total == old(total) + (end - start)
      ensures ok ==> managed == old(managed) + Span(start, end)
    {
      if start > end {
        return false;
      }
      ghost var before := Free();
      var sum := InsertRange(start, end);
      total := total + sum;
      managed := managed + Span(start, end);
      AddFacts(before, live, start, end, orders);
      ok := true;
    }

    /** The loop that cuts the range into blocks. */
    method InsertRange(start: nat, end: nat) returns (sum: nat)
      requires freeList.Length == orders > 0 && start <= end
      modifies freeList
      ensures Free() == old(Free()) + Decompose(start, end, orders)
      ensures sum == end - start
    {
      sum := 0;
      var cur := start;
      ghost var goal := Free() + Decompose(start, end, orders);
      while cur < end
        invariant start <= cur <= end && sum == cur - start
        invariant Free() + Decompose(cur, end, orders) == goal
      {
        var size := InsertChunk(cur, end);
        sum := sum + size;
        cur := cur + size;
      }
      DecomposeDone(end, orders, Free());
    }

    /** One turn of the loop: the largest block that fits at the cursor. */
    method InsertChunk(cur: nat, end: nat) returns (size: nat)
      requires freeList.Length == orders > 0 && cur < end
      modifies freeList
      ensures 0 < size && cur + size <= end
      ensures Free() + Decompose(cur + size, end, orders) == old(Free()) + Decompose(cur, end, orders)
    {
      ChunkFacts(cur, end, orders);
      DecomposeStep(cur, end, orders, Free());
      size := ChunkSize(cur, end, orders);
      Insert(TrailingZeros(size), cur);
    }

    method Insert(k: nat, start: nat)
      requires k < freeList.Length
      modifies freeList
      ensures freeList[..] == old(freeList[..])[k := old(freeList[k]) + {start}]
      ensures Free() == old(Free()) + {Block(start, k)}
    {
      InsertStart(freeList[..], k, start);
      freeList[k] := freeList[k] + {start};
    }

    method Erase(k: nat, start: nat)
      requires k < freeList.Length
      modifies freeList
      ensures freeList[..] == old(freeList[..])[k := old(freeList[k]) - {start}]
      ensures Free() == old(Free()) - {Block(start, k)}
    {
      RemoveStart(freeList[..], k, start);
      freeList[k] := freeList[k] - {start};
    }

    /**
     Takes the least block of the first nonempty order and splits it down. The failure
     returns in the middle of the split are unreachable: the block just split off is there.
     */
    method AllocPowerOfTwo(size: nat) returns (r: Option<nat>)
      requires Valid() && IsPow2(size)
      modifies this, freeList
      ensures Valid() && managed == old(managed) && lost == old(lost) && total == old(total)
      ensures r.None? <==> forall i :: TrailingZeros(size) <= i < orders ==> old(freeList[..])[i] == {}
      ensures r.None? ==>
                freeList[..] == old(freeList[..]) && live == old(live) && allocatedUnits == old(allocatedUnits)
      ensures r.Some? ==>
                var k := TrailingZeros(size);
                var i := FirstNonEmpty(old(freeList[..]), k);
                && i < orders && old(freeList[..])[i] != {}
                && r.value == Least(old(freeList[..])[i])
                && Free() == Carve(old(Free()), Block(r.value, i), k)
                && live == old(live) + {Block(r.value, k)}
                && Block(r.value, k) !in old(live)
                && allocatedUnits == old(allocatedUnits) + size
                && SameCover(old(Free() + live), Free() + live)
      ensures old(Canonical(Free(), orders - 1)) ==> Canonical(Free(), orders - 1)
    {
      var k := TrailingZeros(size);
      var i := FindOrder(k);
      if i >= orders {
        return None;
      }
      ghost var block := Block(Least(freeList[i]), i);
      assert block in Free();
      TakeFacts(Free(), live, block, k, orders);
      var result := SplitDown(i, k);
      allocatedUnits := allocatedUnits + size;
      live := live + {Block(result, k)};
      r := Some(result);
    }

    /** The scan for the first nonempty order at or above `k`. */
    method FindOrder(k: nat) returns (i: nat)
      requires freeList.Length == orders
      ensures k <= i && (i < orders ==> freeList[i] != {})
      ensures forall j :: k <= j < i && j < orders ==> freeList[j] == {}
      ensures i < orders ==> i == FirstNonEmpty(freeList[..], k)
    {
      i := k;
      while i < orders && freeList[i] == {}
        invariant k <= i && (i > k ==> i <= orders)
        invariant forall j :: k <= j < i && j < orders ==> freeList[j] == {}
        invariant FirstNonEmpty(freeList[..], k) == FirstNonEmpty(freeList[..], i)
        decreases orders - i
      {
        i := i + 1;
      }
    }

    /** The split loop: the least block of order `i` down to order `k`, and its left end taken out. */
    method SplitDown(i: nat, k: nat) returns (result: nat)
      requires freeList.Length == orders && k <= i < orders && freeList[i] != {}
      requires forall l :: k <= l < i ==> freeList[l] == {}
      modifies freeList
      ensures result == Least(old(freeList[i]))
      ensures Free() == Carve(old(Free()), Block(result, i), k)
    {
      ghost var m := Least(freeList[i]);
      var j := i;
      while j > k
        invariant k <= j <= i
        invariant freeList[j] != {} && Least(freeList[j]) == m
        invariant forall l :: k <= l < j ==> freeList[l] == {}
        invariant Carve(Free(), Block(m, j), k) == Carve(old(Free()), Block(m, i), k)
      {
        SplitLeast(j);
        j := j - 1;
      }
      result := Least(freeList[k]);
      Erase(k, result);
    }

    /** One turn of the split loop: the least block of order `j` becomes the two blocks of order `j - 1`. */
    method SplitLeast(j: nat)
      requires 0 < j < freeList.Length && freeList[j] != {} && freeList[j - 1] == {}
      modifies freeList
      ensures var m := Least(old(freeList[j]));
              && freeList[..] == old(freeList[..])[j - 1 := {m, m + Pow2(j - 1)}][j := old(freeList[j]) - {m}]
              && Least(freeList[j - 1]) == m
              && Free() == SplitOne(old(Free()), Block(m, j))
    {
      var b := Least(freeList[j]);
      Insert(j - 1, b + Pow2(j - 1));
      Insert(j - 1, b);
      Erase(j, b);
      assert freeList[j - 1] == {b, b + Pow2(j - 1)};
    }

    /**
     Returns a live block. Every frame stays accounted for exactly when the merge chain
     does not run out of the top order; otherwise the two top-order siblings are dropped.
     */
    method DeallocPowerOfTwo(start: nat, size: nat)
      requires Valid() && IsPow2(size) && Block(start, TrailingZeros(size)) in live
      modifies this, freeList
      ensures Valid() && managed == old(managed) && total == old(total)
      ensures var b := Block(start, TrailingZeros(size));
              && live == old(live) - {b}
              && allocatedUnits == old(allocatedUnits) - size
              && Free() == FrameMerge(old(Free()), b, orders)
              && lost == old(lost) + (if MergesOut(old(Free()), b, orders) then Pow2(orders) else 0)
              && (SameCover(old(Free() + live), Free() + live) <==> !MergesOut(old(Free()), b, orders))
              && (old(Canonical(Free(), orders - 1)) ==> Canonical(Free(), orders - 1))
    {
      ghost var b := Block(start, TrailingZeros(size));
      ghost var before := Free();
      ReleaseFacts(before, live, b, orders);
      UnitsRemove(live, b);
      MergeFrom(start, TrailingZeros(size));
      allocatedUnits := allocatedUnits - size;
      if MergesOut(before, b, orders) {
        lost := lost + Pow2(orders);
      }
      live := live - {b};
    }

    /** The merge loop. */
    method MergeFrom(start: nat, k: nat)
      requires freeList.Length == orders
      modifies freeList
      ensures Free() == FrameMerge(old(Free()), Block(start, k), orders)
    {
      var ptr := start;
      var cls := k;
      while cls < orders
        invariant k <= cls && (cls > k ==> cls <= orders)
        invariant FrameMerge(Free(), Block(ptr, cls), orders) == FrameMerge(old(Free()), Block(start, k), orders)
        decreases orders - cls
      {
        var buddy := FlipBit(ptr, cls);
        if buddy in freeList[cls] {
          Erase(cls, buddy);
          ptr := Min(ptr, buddy);
          cls := cls + 1;
        } else {
          Insert(cls, ptr);
          break;
        }
      }
    }
  }

  ghost predicate InSpan(x: nat, start: nat, end: nat) { start <= x < end }

  ghost function Span(start: nat, end: nat): iset<nat> {
    iset x: nat | InSpan(x, start, end)
  }

  /** What adding a range does to the blocks and to their number. */
  lemma AddFacts(free: set<Block>, live: set<Block>, start: nat, end: nat, orders: nat)
    requires orders > 0 && start <= end
    requires free !! live && WellFormed(free + live, orders)
    requires forall x: nat :: InSpan(x, start, end) ==> !Covered(free + live, x)
    ensures var free' := free + Decompose(start, end, orders);
            && free' !! live
            && WellFormed(free' + live, orders)
            && (forall x: nat :: Covered(free' + live, x) <==> Covered(free + live, x) || x in Span(start, end))
            && Units(free') == Units(free) + (end - start)
  {
    var added := Decompose(start, end, orders);
    DecomposePartition(start, end, orders);
    JoinWellFormed(free + live, added, orders);
    CoverOfJoin(free + live, added);
    assert free + added + live == free + live + added;
    UnitsUnion(free, added);
  }

  /** What one release does to the frames, to their number and to the canonical form. */
  lemma ReleaseFacts(free: set<Block>, live: set<Block>, b: Block, orders: nat)
    requires orders > 0 && free !! live && WellFormed(free + live, orders) && b in live
    ensures var free', live' := FrameMerge(free, b, orders), live - {b};
            && free' !! live'
            && WellFormed(free' + live', orders)
            && (forall x: nat :: Covered(free' + live', x) ==> Covered(free + live, x))
            && (SameCover(free + live, free' + live') <==> !MergesOut(free, b, orders))
            && Units(free') + (if MergesOut(free, b, orders) then Pow2(orders) else 0) == Units(free) + b.Size()
            && (Canonical(free, orders - 1) ==> Canonical(free', orders - 1))
  {
    var rest := live - {b};
    assert free + rest + {b} == free + live;
    if MergesOut(free, b, orders) {
      ReleaseDrops(free, rest, b, orders);
    } else {
      ReleaseMerges(free, rest, b, orders);
    }
  }

  lemma ReleaseMerges(free: set<Block>, rest: set<Block>, b: Block, orders: nat)
    requires orders > 0 && free !! rest && b !in free + rest && WellFormed(free + rest + {b}, orders)
    requires !MergesOut(free, b, orders)
    ensures FrameMerge(free, b, orders) !! rest
    ensures WellFormed(FrameMerge(free, b, orders) + rest, orders)
    ensures SameCover(free + rest + {b}, FrameMerge(free, b, orders) + rest)
    ensures Units(FrameMerge(free, b, orders)) == Units(free) + b.Size()
    ensures Canonical(free, orders - 1) ==> Canonical(FrameMerge(free, b, orders), orders - 1)
  {
    FrameMergeIsMergeUp(free, b, orders);
    MergeUpKeeps(free, rest, b, orders - 1, orders);
    GiveCounts(free, rest, b, orders);
  }

  lemma ReleaseDrops(free: set<Block>, rest: set<Block>, b: Block, orders: nat)
    requires orders > 0 && free !! rest && b !in free + rest && WellFormed(free + rest + {b}, orders)
    requires MergesOut(free, b, orders)
    ensures var free' := FrameMerge(free, b, orders);
            && free' <= free
            && WellFormed(free' + rest, orders)
            && (forall x: nat :: Covered(free' + rest, x) ==> Covered(free + rest + {b}, x))
            && !SameCover(free + rest + {b}, free' + rest)
            && Units(free') + Pow2(orders) == Units(free) + b.Size()
  {
    WellFormedWider(free + rest + {b}, orders, orders + 1);
    FrameMergeDrops(free, b, orders, rest, orders + 1);
    var dropped := Block(Floor(b.start, orders), orders);
    var x := dropped.start;
    assert dropped.Has(x);
    var c :| c in free + {b} && c.Has(x);
    assert c in free + rest + {b};
  }

  /** Two orders-1 siblings 0 and 1: allocating one frame and returning it loses both. */
  lemma TopSiblingsAreLost()
    ensures Decompose(0, 2, 1) == {Block(0, 0), Block(1, 0)}
    ensures Carve(Decompose(0, 2, 1), Block(0, 0), 0) == {Block(1, 0)}
    ensures MergesOut({Block(1, 0)}, Block(0, 0), 1)
    ensures FrameMerge({Block(1, 0)}, Block(0, 0), 1) == {}
  {
    assert ChunkOrder(0, 2, 1) == 0 && ChunkOrder(1, 2, 1) == 0;
    assert Decompose(2, 2, 1) == {};
    assert Decompose(1, 2, 1) == {Block(1, 0)} + Decompose(2, 2, 1);
    assert Decompose(0, 2, 1) == {Block(0, 0)} + Decompose(1, 2, 1);
    assert Block(0, 0).Buddy() == Block(1, 0) && Block(0, 0).Parent() == Block(0, 1);
    assert FrameMerge({}, Block(0, 1), 1) == {};
    assert {Block(1, 0)} - {Block(0, 0).Buddy()} == {};
  }

  // ---------------------------------------------------------------- runs of the frame allocator

  ghost function FrameApply(p: Pool, op: Op, orders: nat): Pool
    requires orders > 0 && Enabled(p, op)
  {
    match op
    case Take(b, k) => Pool(Carve(p.free, b, k), p.live + {Block(b.start, k)})
    case Give(b) => Pool(FrameMerge(p.free, b, orders), p.live - {b})
  }

  ghost predicate IsFrameRun(p: Pool, ops: seq<Op>, q: Pool, orders: nat)
    requires orders > 0
    decreases |ops|
  {
    if ops == [] then p == q
    else Enabled(p, ops[0]) && IsFrameRun(FrameApply(p, ops[0], orders), ops[1..], q, orders)
  }

  /** Free and live blocks are disjoint and cover exactly the managed frames. */
  ghost predicate Partition(p: Pool, managed: iset<nat>, orders: nat) {
    && p.free !! p.live
    && WellFormed(p.free + p.live, orders)
    && forall x: nat :: x in managed <==> Covered(p.free + p.live, x)
  }

  /** Free and live frames partition the managed frames after every run without managed top-order siblings. */
  lemma {:induction false} FrameConservation(p: Pool, ops: seq<Op>, q: Pool, managed: iset<nat>, orders: nat)
    requires orders > 0 && Partition(p, managed, orders) && NoTopSiblings(managed, orders)
    requires IsFrameRun(p, ops, q, orders)
    ensures Partition(q, managed, orders)
    ensures IsRun(p, ops, q, orders)
    decreases |ops|
  {
    if ops != [] {
      var p' := FrameApply(p, ops[0], orders);
      match ops[0] {
        case Take(b, k) =>
          CarveKeeps(p.free, p.live, b, k, orders);
        case Give(b) =>
          CoverOfJoin(p.free + {b}, p.live - {b});
          assert p.free + {b} + (p.live - {b}) == p.free + p.live;
          NoTopSiblingsNoLoss(p.free, b, orders, managed);
          ReleaseFacts(p.free, p.live, b, orders);
          FrameMergeIsMergeUp(p.free, b, orders);
      }
      FrameConservation(p', ops[1..], q, managed, orders);
    }
  }

  /** Returning everything that was allocated, in any order, restores exactly the original lists. */
  lemma FrameFreeingAllRestores(p: Pool, ops: seq<Op>, q: Pool, managed: iset<nat>, orders: nat)
    requires orders > 0 && Partition(p, managed, orders) && NoTopSiblings(managed, orders)
    requires Canonical(p.free, orders - 1)
    requires IsFrameRun(p, ops, q, orders) && q.live == p.live
    ensures q.free == p.free
  {
    FrameConservation(p, ops, q, managed, orders);
    FreeingAllRestores(p, ops, q, orders);
  }

  // ---------------------------------------------------------------- managed top-order siblings can always be lost

  lemma {:induction false} MergeUpShrinks(free: set<Block>, b: Block, limit: nat)
    ensures |MergeUp(free, b, limit)| <= |free| + 1
    ensures b.order < limit && b.Buddy() in free ==> |MergeUp(free, b, limit)| <= |free|
    decreases limit - b.order
  {
    if b.order < limit && b.Buddy() in free {
      MergeUpShrinks(free - {b.Buddy()}, b.Parent(), limit);
      assert |free - {b.Buddy()}| == |free| - 1;
    }
  }

  /** A release either loses frames or keeps the partition. */
  lemma GiveKeepsOrLoses(p: Pool, b: Block, managed: iset<nat>, orders: nat)
    requires orders > 0 && Partition(p, managed, orders) && b in p.live
    ensures Partition(FrameApply(p, Give(b), orders), managed, orders) <==> !MergesOut(p.free, b, orders)
    ensures !MergesOut(p.free, b, orders) ==> FrameMerge(p.free, b, orders) == MergeUp(p.free, b, orders - 1)
  {
    ReleaseFacts(p.free, p.live, b, orders);
    if !MergesOut(p.free, b, orders) {
      FrameMergeIsMergeUp(p.free, b, orders);
    }
  }

  /** Allocating a whole free block. */
  lemma TakeWhole(p: Pool, b: Block, managed: iset<nat>, orders: nat)
    requires orders > 0 && Partition(p, managed, orders) && b in p.free
    ensures FrameApply(p, Take(b, b.order), orders) == Pool(p.free - {b}, p.live + {b})
    ensures Partition(Pool(p.free - {b}, p.live + {b}), managed, orders)
  {
    CarveKeeps(p.free, p.live, b, b.order, orders);
  }

  /** In a canonical free set that covers an aligned block of the order past the top, its two halves are free blocks. */
  lemma HalvesAreFree(free: set<Block>, orders: nat, r: Block)
    requires orders > 0 && WellFormed(free, orders) && Canonical(free, orders - 1)
    requires r.IsAligned() && r.order == orders && forall x: nat :: r.Has(x) ==> Covered(free, x)
    ensures r.Left() in free && r.Right() in free && r.Left().Buddy() == r.Right() && r.Left() != r.Right()
  {
    HalvesAreBuddies(r);
    forall h | h == r.Left() || h == r.Right()
      ensures h in free
    {
      assert forall x: nat :: h.Has(x) ==> r.Has(x);
      var c := FullRangeInOneBlock(free, h, orders);
      WithinOrder(h, c);
      Nested(h, c);
    }
  }

  /** Taking one top-order sibling out and giving it back merges past the top. */
  lemma TopHalfMergesOut(free: set<Block>, h: Block, orders: nat)
    requires h.IsAligned() && h.order + 1 == orders && h.Buddy() in free
    ensures MergesOut(free, h, orders)
  {
    MergesOutStep(free, h, orders);
    BuddyHalves(h);
  }

  lemma FrameCons(p: Pool, op: Op, ops: seq<Op>, q: Pool, orders: nat)
    requires orders > 0 && Enabled(p, op) && IsFrameRun(FrameApply(p, op, orders), ops, q, orders)
    ensures IsFrameRun(p, [op] + ops, q, orders)
  {
    assert ([op] + ops)[1..] == ops;
  }

  /** Taking a whole free block and giving it back. */
  lemma TakeAndGive(p: Pool, b: Block, managed: iset<nat>, orders: nat) returns (p1: Pool, p2: Pool)
    requires orders > 0 && Partition(p, managed, orders) && b in p.free && p.live == {}
    ensures p1 == FrameApply(p, Take(b, b.order), orders) && p1 == Pool(p.free - {b}, {b})
    ensures p2 == FrameApply(p1, Give(b), orders) && p2.live == {}
    ensures Partition(p2, managed, orders) <==> !MergesOut(p1.free, b, orders)
    ensures Partition(p2, managed, orders) && b.order < orders - 1 && b.Buddy() in p1.free ==> |p2.free| < |p.free|
  {
    TakeWhole(p, b, managed, orders);
    p1 := Pool(p.free - {b}, {b});
    assert p.live + {b} == {b};
    GiveKeepsOrLoses(p1, b, managed, orders);
    p2 := FrameApply(p1, Give(b), orders);
    assert {b} - {b} == {};
    MergeUpShrinks(p1.free, b, orders - 1);
    assert |p1.free| == |p.free| - 1;
  }

  /**
   From every pool that manages an aligned block of the order past the top, some run loses frames: give back what is
   allocated, take and return blocks whose buddy is free until none is left, then take and return one half.
   */
  lemma {:induction false} SomeRunLoses(p: Pool, managed: iset<nat>, orders: nat, r: Block)
    returns (ops: seq<Op>, q: Pool)
    requires orders > 0 && Partition(p, managed, orders)
    requires r.IsAligned() && r.order == orders && forall x: nat :: r.Has(x) ==> x in managed
    ensures IsFrameRun(p, ops, q, orders) && !Partition(q, managed, orders)
    decreases |p.live|, |p.free|
  {
    if p.live != {} {
      var b :| b in p.live;
      GiveKeepsOrLoses(p, b, managed, orders);
      var p1 := FrameApply(p, Give(b), orders);
      assert |p1.live| == |p.live| - 1;
      ops, q := [], p1;
      if Partition(p1, managed, orders) {
        ops, q := SomeRunLoses(p1, managed, orders, r);
      }
      FrameCons(p, Give(b), ops, q, orders);
      ops := [Give(b)] + ops;
    } else {
      var b := BlockToReturn(p, managed, orders, r);
      var p1, p2 := TakeAndGive(p, b, managed, orders);
      ops, q := [], p2;
      if Partition(p2, managed, orders) {
        ops, q := SomeRunLoses(p2, managed, orders, r);
      }
      FrameCons(p1, Give(b), ops, q, orders);
      FrameCons(p, Take(b, b.order), [Give(b)] + ops, q, orders);
      ops := [Take(b, b.order)] + ([Give(b)] + ops);
    }
  }

  /** With nothing allocated, some free block merges when it is taken and given back: below the top, or past it. */
  lemma BlockToReturn(p: Pool, managed: iset<nat>, orders: nat, r: Block) returns (b: Block)
    requires orders > 0 && Partition(p, managed, orders) && p.live == {}
    requires r.IsAligned() && r.order == orders && forall x: nat :: r.Has(x) ==> x in managed
    ensures b in p.free && b.Buddy() in p.free - {b}
    ensures b.order < orders - 1 || MergesOut(p.free - {b}, b, orders)
  {
    assert p.free + p.live == p.free;
    if c :| c in p.free && c.order < orders - 1 && c.Buddy() in p.free {
      BuddyHalves(c);
      b := c;
    } else {
      HalvesAreFree(p.free, orders, r);
      b := r.Left();
      HalvesAreBuddies(r);
      TopHalfMergesOut(p.free - {b}, b, orders);
    }
  }

  /** The run `ops` leads to a pool that no longer partitions the managed frames. */
  ghost predicate Loses(p: Pool, ops: seq<Op>, q: Pool, managed: iset<nat>, orders: nat)
    requires orders > 0
  {
    IsFrameRun(p, ops, q, orders) && !Partition(q, managed, orders)
  }

  /** Every run conserves the frames if and only if no two sibling top-order blocks are managed. */
  lemma FrameConservationIff(p: Pool, managed: iset<nat>, orders: nat)
    requires orders > 0 && Partition(p, managed, orders)
    ensures NoTopSiblings(managed, orders)
       <==> forall ops: seq<Op>, q: Pool :: !Loses(p, ops, q, managed, orders)
  {
    if NoTopSiblings(managed, orders) {
      forall ops: seq<Op>, q: Pool
        ensures !Loses(p, ops, q, managed, orders)
      {
        if IsFrameRun(p, ops, q, orders) {
          FrameConservation(p, ops, q, managed, orders);
        }
      }
    } else {
      var r: Block :| r.IsAligned() && r.order == orders && forall x: nat :: r.Has(x) ==> x in managed;
      var ops, q := SomeRunLoses(p, managed, orders, r);
      assert Loses(p, ops, q, managed, orders);
    }
  }
}
