/**
 The buddy system on sets of blocks. A block of order k is an aligned range of Pow2(k)
 units (frames or bytes). Both allocators split and merge blocks of this kind; they differ
 in how they store the free ones and in where the merging stops.
 */
module BuddyBlocks {
  import opened Bits
  import opened Common

  datatype Block = Block(start: nat, order: nat) {
    function Size(): nat { Pow2(order) }

    function End(): nat { start + Size() }

    predicate Has(x: nat) { start <= x < End() }

    predicate IsAligned() { Aligned(start, order) }

    predicate Within(outer: Block) { outer.start <= start && End() <= outer.End() }

    /** The sibling: the same order, the order-th address bit inverted. */
    function Buddy(): Block { Block(FlipBit(start, order), order) }

    /** The block that the two siblings form. */
    function Parent(): Block { Block(Min(start, FlipBit(start, order)), order + 1) }

    function Left(): Block
      requires order > 0
    {
      Block(start, order - 1)
    }

    function Right(): Block
      requires order > 0
    {
      Block(start + Pow2(order - 1), order - 1)
    }
  }

  predicate Apart(a: Block, b: Block) {
    a.End() <= b.start || b.End() <= a.start
  }

  /** Aligned blocks of bounded order, pairwise disjoint. */
  ghost predicate WellFormed(bs: set<Block>, orders: nat) {
    && (forall b :: b in bs ==> b.IsAligned() && b.order < orders)
    && (forall a, b :: a in bs && b in bs && a != b ==> Apart(a, b))
  }

  ghost predicate Covered(bs: set<Block>, x: nat) {
    exists b :: b in bs && b.Has(x)
  }

  ghost predicate SameCover(bs: set<Block>, cs: set<Block>) {
    forall x: nat :: Covered(bs, x) <==> Covered(cs, x)
  }

  /** No two siblings below the order `top` are both present. */
  ghost predicate Canonical(bs: set<Block>, top: nat) {
    forall b :: b in bs && b.order < top ==> b.Buddy() !in bs
  }

  lemma SubsetWellFormed(bs: set<Block>, cs: set<Block>, orders: nat)
    requires bs <= cs && WellFormed(cs, orders)
    ensures WellFormed(bs, orders)
  {
  }

  // ---------------------------------------------------------------- one block

  /** A block and its buddy are the two halves of the parent. */
  lemma BuddyHalves(b: Block)
    requires b.IsAligned()
    ensures b.Buddy().IsAligned() && b.Parent().IsAligned()
    ensures b.Buddy().Buddy() == b && b.Buddy() != b
    ensures b.Buddy().Parent() == b.Parent()
    ensures {b, b.Buddy()} == {b.Parent().Left(), b.Parent().Right()}
  {
    SiblingCases(b.start, b.order);
    if Aligned(b.start, b.order + 1) {
      LeftSibling(b.start, b.order);
    } else {
      LeftSibling(b.start - Pow2(b.order), b.order);
    }
  }

  /** The halves of a block are siblings whose parent is the block. */
  lemma HalvesAreBuddies(b: Block)
    requires b.IsAligned() && b.order > 0
    ensures b.Left().IsAligned() && b.Right().IsAligned()
    ensures b.Left().Buddy() == b.Right() && b.Right().Buddy() == b.Left()
    ensures b.Left().Parent() == b && b.Right().Parent() == b
    ensures b.Left() != b.Right()
  {
    LeftSibling(b.start, b.order - 1);
  }

  /** Aligned blocks that meet are nested, the smaller one inside. */
  lemma Nested(a: Block, b: Block)
    requires a.IsAligned() && b.IsAligned() && !Apart(a, b) && a.order <= b.order
    ensures a.Within(b)
    ensures a.order == b.order ==> a == b
  {
    NestedWhenMeeting(a.start, a.order, b.start, b.order);
  }

  /** Nested blocks of growing extent have growing orders. */
  lemma WithinOrder(a: Block, b: Block)
    requires a.Within(b)
    ensures a.order <= b.order
  {
    if a.order > b.order {
      Pow2Monotone(b.order, a.order);
    }
  }

  // ---------------------------------------------------------------- splitting and merging

  ghost function SplitOne(bs: set<Block>, b: Block): set<Block>
    requires b.order > 0
  {
    bs - {b} + {b.Left(), b.Right()}
  }

  lemma SplitOneCover(bs: set<Block>, b: Block)
    requires b in bs && b.order > 0
    ensures SameCover(bs, SplitOne(bs, b))
  {
    var cs := SplitOne(bs, b);
    forall x: nat
      ensures Covered(bs, x) <==> Covered(cs, x)
    {
      if Covered(bs, x) {
        var c :| c in bs && c.Has(x);
        if c == b {
          assert b.Left().Has(x) || b.Right().Has(x);
        } else {
          assert c in cs;
        }
      }
      if Covered(cs, x) {
        var c :| c in cs && c.Has(x);
        assert c in bs || b.Has(x);
      }
    }
  }

  lemma SplitOneWellFormed(bs: set<Block>, b: Block, orders: nat)
    requires WellFormed(bs, orders) && b in bs && b.order > 0
    ensures WellFormed(SplitOne(bs, b), orders)
  {
    HalvesAreBuddies(b);
    var l, r := b.Left(), b.Right();
    assert Apart(l, r) && Apart(r, l);
    forall c | c in bs && c != b
      ensures Apart(c, l) && Apart(l, c) && Apart(c, r) && Apart(r, c)
    {
      assert Apart(c, b);
    }
  }

  /** Merging a block with its buddy undoes a split. */
  ghost function MergeOne(bs: set<Block>, b: Block): set<Block> {
    bs - {b, b.Buddy()} + {b.Parent()}
  }

  lemma MergeOneWellFormed(bs: set<Block>, b: Block, orders: nat)
    requires WellFormed(bs, orders) && b in bs && b.Buddy() in bs && b.order + 1 < orders
    ensures WellFormed(MergeOne(bs, b), orders)
    ensures SameCover(bs, MergeOne(bs, b))
    ensures b.Parent() !in bs
  {
    BuddyHalves(b);
    var p := b.Parent();
    assert !Apart(b, p);
    assert p !in bs;
    var cs := MergeOne(bs, b);
    forall c | c in cs && c != p
      ensures Apart(c, p)
    {
      assert Apart(c, b) && Apart(c, b.Buddy());
    }
    assert SplitOne(cs, p) == bs;
    SplitOneCover(cs, p);
  }

  // ---------------------------------------------------------------- uniqueness

  /** A fully covered aligned range lies inside one block of a canonical set. */
  lemma {:induction false} FullRangeInOneBlock(bs: set<Block>, r: Block, orders: nat) returns (c: Block)
    requires orders > 0 && WellFormed(bs, orders) && Canonical(bs, orders - 1)
    requires r.IsAligned() && r.order < orders
    requires forall x: nat :: r.Has(x) ==> Covered(bs, x)
    ensures c in bs && r.Within(c)
    decreases r.order
  {
    if r.order == 0 {
      assert r.Has(r.start);
      assert Covered(bs, r.start);
      c :| c in bs && c.Has(r.start);
    } else {
      HalvesAreBuddies(r);
      var l, h := r.Left(), r.Right();
      assert forall x: nat :: l.Has(x) || h.Has(x) ==> r.Has(x);
      c := FullRangeInOneBlock(bs, l, orders);
      var d := FullRangeInOneBlock(bs, h, orders);
      WithinOrder(l, c);
      WithinOrder(h, d);
      if c.order >= r.order {
        Nested(r, c);
      } else if d.order >= r.order {
        Nested(r, d);
        c := d;
      } else {
        Nested(c, l);
        Nested(d, h);
        assert false;
      }
    }
  }

  /** The canonical set of blocks is determined by what it covers. */
  lemma CanonicalUnique(bs: set<Block>, cs: set<Block>, orders: nat)
    requires orders > 0
    requires WellFormed(bs, orders) && Canonical(bs, orders - 1)
    requires WellFormed(cs, orders) && Canonical(cs, orders - 1)
    requires SameCover(bs, cs)
    ensures bs == cs
  {
    CanonicalSubset(bs, cs, orders);
    CanonicalSubset(cs, bs, orders);
  }

  lemma CanonicalSubset(bs: set<Block>, cs: set<Block>, orders: nat)
    requires orders > 0
    requires WellFormed(bs, orders) && Canonical(bs, orders - 1)
    requires WellFormed(cs, orders) && Canonical(cs, orders - 1)
    requires SameCover(bs, cs)
    ensures bs <= cs
  {
    forall b | b in bs
      ensures b in cs
    {
      var c := FullRangeInOneBlock(cs, b, orders);
      var d := FullRangeInOneBlock(bs, c, orders);
      assert !Apart(b, d);
      WithinOrder(b, c);
      WithinOrder(c, d);
      Nested(b, c);
    }
  }

  // ---------------------------------------------------------------- allocation and release

  /** Splitting `b` down to the order `k` and taking its leftmost part out. */
  ghost function Carve(free: set<Block>, b: Block, k: nat): set<Block>
    requires k <= b.order
    decreases b.order
  {
    if k == b.order then free - {b}
    else Carve(SplitOne(free, b), b.Left(), k)
  }

  /** Releasing `b`: the buddy is absorbed for as long as it is free and `limit` is not reached. */
  ghost function MergeUp(free: set<Block>, b: Block, limit: nat): set<Block>
    decreases limit - b.order
  {
    if b.order < limit && b.Buddy() in free then MergeUp(free - {b.Buddy()}, b.Parent(), limit)
    else free + {b}
  }

  lemma {:induction false} CarveKeeps(free: set<Block>, live: set<Block>, b: Block, k: nat, orders: nat)
    requires free !! live && WellFormed(free + live, orders)
    requires b in free && k <= b.order
    ensures var taken := Block(b.start, k);
            && Carve(free, b, k) !! live + {taken} && taken !in live
            && WellFormed(Carve(free, b, k) + (live + {taken}), orders)
            && SameCover(free + live, Carve(free, b, k) + (live + {taken}))
    decreases b.order
  {
    if k == b.order {
      assert free - {b} + (live + {b}) == free + live;
    } else {
      var split := SplitOne(free, b);
      HalvesAreBuddies(b);
      SplitOneWellFormed(free + live, b, orders);
      SplitOneCover(free + live, b);
      assert !Apart(b, b.Left()) && !Apart(b, b.Right());
      assert split + live == SplitOne(free + live, b);
      CarveKeeps(split, live, b.Left(), k, orders);
    }
  }

  lemma {:induction false} CarveCanonical(free: set<Block>, b: Block, k: nat, orders: nat, top: nat)
    requires WellFormed(free, orders) && b in free && k <= b.order
    requires forall c :: c in free && c.order < top && c.Buddy() in free ==> c == b || c == b.Buddy()
    ensures Canonical(Carve(free, b, k), top)
    decreases b.order
  {
    if k == b.order {
      BuddyHalves(b);
    } else {
      var split := SplitOne(free, b);
      HalvesAreBuddies(b);
      SplitOneWellFormed(free, b, orders);
      assert !Apart(b, b.Left()) && !Apart(b, b.Right());
      forall c | c in split && c.order < top && c.Buddy() in split
        ensures c == b.Left() || c == b.Right()
      {
        BuddyHalves(c);
        BuddyHalves(b);
        assert b !in split;
      }
      CarveCanonical(split, b.Left(), k, orders, top);
    }
  }

  lemma {:induction false} MergeUpKeeps(free: set<Block>, live: set<Block>, b: Block, limit: nat, orders: nat)
    requires free !! live && b !in free && b !in live
    requires WellFormed(free + live + {b}, orders)
    requires limit < orders
    ensures MergeUp(free, b, limit) !! live
    ensures WellFormed(MergeUp(free, b, limit) + live, orders)
    ensures SameCover(free + live + {b}, MergeUp(free, b, limit) + live)
    decreases limit - b.order
  {
    if b.order < limit && b.Buddy() in free {
      BuddyHalves(b);
      var all := free + live + {b};
      MergeOneWellFormed(all, b, orders);
      assert free - {b.Buddy()} + live + {b.Parent()} == MergeOne(all, b);
      MergeUpKeeps(free - {b.Buddy()}, live, b.Parent(), limit, orders);
    } else {
      assert free + {b} + live == free + live + {b};
    }
  }

  lemma {:induction false} MergeUpCanonical(free: set<Block>, b: Block, limit: nat, orders: nat)
    requires WellFormed(free + {b}, orders) && b !in free && limit < orders
    requires Canonical(free, limit)
    ensures Canonical(MergeUp(free, b, limit), limit)
    decreases limit - b.order
  {
    BuddyHalves(b);
    if b.order < limit && b.Buddy() in free {
      var all := free + {b};
      MergeOneWellFormed(all, b, orders);
      assert free - {b.Buddy()} + {b.Parent()} == MergeOne(all, b);
      MergeUpCanonical(free - {b.Buddy()}, b.Parent(), limit, orders);
    } else {
      forall c | c in free + {b} && c.order < limit
        ensures c.Buddy() !in free + {b}
      {
        BuddyHalves(c);
      }
    }
  }

  // ---------------------------------------------------------------- sizes

  /** The number of units in a set of blocks. */
  ghost function Units(bs: set<Block>): nat {
    if bs == {} then 0
    else
      var b :| b in bs;
      b.Size() + Units(bs - {b})
  }

  lemma {:induction false} UnitsRemove(bs: set<Block>, b: Block)
    requires b in bs
    ensures Units(bs) == b.Size() + Units(bs - {b})
    decreases bs
  {
    var c :| c in bs && Units(bs) == c.Size() + Units(bs - {c});
    if c != b {
      UnitsRemove(bs - {c}, b);
      UnitsRemove(bs - {b}, c);
      assert bs - {c} - {b} == bs - {b} - {c};
    }
  }

  lemma UnitsAdd(bs: set<Block>, b: Block)
    requires b !in bs
    ensures Units(bs + {b}) == Units(bs) + b.Size()
  {
    UnitsRemove(bs + {b}, b);
    assert bs + {b} - {b} == bs;
  }

  lemma {:induction false} UnitsUnion(bs: set<Block>, cs: set<Block>)
    requires bs !! cs
    ensures Units(bs + cs) == Units(bs) + Units(cs)
    decreases cs
  {
    if cs == {} {
      assert bs + cs == bs;
    } else {
      var c :| c in cs;
      UnitsUnion(bs, cs - {c});
      UnitsRemove(cs, c);
      UnitsRemove(bs + cs, c);
      assert bs + cs - {c} == bs + (cs - {c});
    }
  }

  lemma SplitOneUnits(bs: set<Block>, b: Block, orders: nat)
    requires WellFormed(bs, orders) && b in bs && b.order > 0
    ensures Units(SplitOne(bs, b)) == Units(bs)
  {
    UnitsRemove(bs, b);
    HalvesAreBuddies(b);
    assert !Apart(b, b.Left()) && !Apart(b, b.Right());
    UnitsAdd(bs - {b}, b.Left());
    UnitsAdd(bs - {b} + {b.Left()}, b.Right());
    assert SplitOne(bs, b) == bs - {b} + {b.Left()} + {b.Right()};
  }

  lemma {:induction false} CarveUnits(free: set<Block>, b: Block, k: nat, orders: nat)
    requires WellFormed(free, orders) && b in free && k <= b.order
    ensures Units(free) == Units(Carve(free, b, k)) + Pow2(k)
    decreases b.order
  {
    if k < b.order {
      SplitOneUnits(free, b, orders);
      SplitOneWellFormed(free, b, orders);
      CarveUnits(SplitOne(free, b), b.Left(), k, orders);
    } else {
      UnitsRemove(free, b);
    }
  }

  lemma {:induction false} MergeUpUnits(free: set<Block>, b: Block, limit: nat, orders: nat)
    requires WellFormed(free + {b}, orders) && b !in free && limit < orders
    ensures Units(MergeUp(free, b, limit)) == Units(free) + b.Size()
    decreases limit - b.order
  {
    if b.order < limit && b.Buddy() in free {
      BuddyHalves(b);
      UnitsRemove(free, b.Buddy());
      MergeOneWellFormed(free + {b}, b, orders);
      assert free - {b.Buddy()} + {b.Parent()} == MergeOne(free + {b}, b);
      MergeUpUnits(free - {b.Buddy()}, b.Parent(), limit, orders);
    } else {
      UnitsAdd(free, b);
    }
  }

  /** What releasing a block does to the number of units and to the canonical form. */
  lemma GiveCounts(free: set<Block>, rest: set<Block>, b: Block, orders: nat)
    requires orders > 0 && b !in free && WellFormed(free + rest + {b}, orders)
    ensures Units(MergeUp(free, b, orders - 1)) == Units(free) + b.Size()
    ensures Canonical(free, orders - 1) ==> Canonical(MergeUp(free, b, orders - 1), orders - 1)
  {
    SubsetWellFormed(free + {b}, free + rest + {b}, orders);
    MergeUpUnits(free, b, orders - 1, orders);
    MergeUpKeepsCanonical(free, b, orders);
  }

  lemma MergeUpKeepsCanonical(free: set<Block>, b: Block, orders: nat)
    requires orders > 0 && WellFormed(free + {b}, orders) && b !in free
    ensures Canonical(free, orders - 1) ==> Canonical(MergeUp(free, b, orders - 1), orders - 1)
  {
    if Canonical(free, orders - 1) {
      MergeUpCanonical(free, b, orders - 1, orders);
    }
  }

  /** What one allocation does to the blocks and to their number. */
  lemma TakeFacts(free: set<Block>, live: set<Block>, b: Block, k: nat, orders: nat)
    requires orders > 0 && free !! live && WellFormed(free + live, orders) && b in free && k <= b.order
    ensures var free', live' := Carve(free, b, k), live + {Block(b.start, k)};
            && Block(b.start, k) !in live
            && free' !! live'
            && WellFormed(free' + live', orders)
            && SameCover(free + live, free' + live')
            && Units(free) == Units(free') + Pow2(k)
            && Units(live') == Units(live) + Pow2(k)
            && (Canonical(free, orders - 1) ==> Canonical(free', orders - 1))
  {
    CarveKeeps(free, live, b, k, orders);
    SubsetWellFormed(free, free + live, orders);
    CarveUnits(free, b, k, orders);
    UnitsAdd(live, Block(b.start, k));
    if Canonical(free, orders - 1) {
      CarveCanonical(free, b, k, orders, orders - 1);
    }
  }

  // ---------------------------------------------------------------- runs

  datatype Pool = Pool(free: set<Block>, live: set<Block>)

  /** `Take(b, k)` allocates an order-k block out of the free block `b`; `Give(b)` releases `b`. */
  datatype Op = Take(b: Block, k: nat) | Give(b: Block)

  ghost predicate Enabled(p: Pool, op: Op) {
    match op
    case Take(b, k) => b in p.free && k <= b.order
    case Give(b) => b in p.live
  }

  ghost function Apply(p: Pool, op: Op, orders: nat): Pool
    requires orders > 0 && Enabled(p, op)
  {
    match op
    case Take(b, k) => Pool(Carve(p.free, b, k), p.live + {Block(b.start, k)})
    case Give(b) => Pool(MergeUp(p.free, b, orders - 1), p.live - {b})
  }

  /** Every operation of `ops` is enabled in turn, and together they lead from `p` to `q`. */
  ghost predicate IsRun(p: Pool, ops: seq<Op>, q: Pool, orders: nat)
    requires orders > 0
    decreases |ops|
  {
    if ops == [] then p == q
    else Enabled(p, ops[0]) && IsRun(Apply(p, ops[0], orders), ops[1..], q, orders)
  }

  ghost predicate PoolInv(p: Pool, orders: nat) {
    && orders > 0
    && p.free !! p.live
    && WellFormed(p.free + p.live, orders)
    && Canonical(p.free, orders - 1)
  }

  lemma ApplyKeeps(p: Pool, op: Op, orders: nat)
    requires PoolInv(p, orders) && Enabled(p, op)
    ensures var q := Apply(p, op, orders);
            && PoolInv(q, orders)
            && SameCover(p.free + p.live, q.free + q.live)
            && Units(p.free) + Units(p.live) == Units(q.free) + Units(q.live)
  {
    match op
    case Take(b, k) =>
      TakeFacts(p.free, p.live, b, k, orders);
    case Give(b) =>
      var rest := p.live - {b};
      assert p.free + rest + {b} == p.free + p.live;
      MergeUpKeeps(p.free, rest, b, orders - 1, orders);
      GiveCounts(p.free, rest, b, orders);
      UnitsRemove(p.live, b);
  }

  lemma {:induction false} RunKeeps(p: Pool, ops: seq<Op>, q: Pool, orders: nat)
    requires PoolInv(p, orders) && IsRun(p, ops, q, orders)
    ensures PoolInv(q, orders)
    ensures SameCover(p.free + p.live, q.free + q.live)
    ensures Units(p.free) + Units(p.live) == Units(q.free) + Units(q.live)
    decreases |ops|
  {
    if ops != [] {
      ApplyKeeps(p, ops[0], orders);
      RunKeeps(Apply(p, ops[0], orders), ops[1..], q, orders);
    }
  }

  /**
   The free blocks depend on the live ones only, not on the history: two runs from one pool
   that end with live blocks covering the same units end with the same free blocks.
   */
  lemma HistoryIndependence(p: Pool, ops: seq<Op>, q: Pool, ops': seq<Op>, q': Pool, orders: nat)
    requires PoolInv(p, orders) && IsRun(p, ops, q, orders) && IsRun(p, ops', q', orders)
    requires SameCover(q.live, q'.live)
    ensures q.free == q'.free
  {
    RunKeeps(p, ops, q, orders);
    RunKeeps(p, ops', q', orders);
    FreeCover(q, q', orders);
    CanonicalUnique(q.free, q'.free, orders);
  }

  lemma FreeCover(q: Pool, q': Pool, orders: nat)
    requires PoolInv(q, orders) && PoolInv(q', orders)
    requires SameCover(q.free + q.live, q'.free + q'.live) && SameCover(q.live, q'.live)
    ensures SameCover(q.free, q'.free)
  {
    forall x: nat
      ensures Covered(q.free, x) <==> Covered(q'.free, x)
    {
      CoverOfUnion(q.free, q.live, x, orders);
      CoverOfUnion(q'.free, q'.live, x, orders);
    }
  }

  lemma CoverOfUnion(bs: set<Block>, cs: set<Block>, x: nat, orders: nat)
    requires bs !! cs && WellFormed(bs + cs, orders)
    ensures Covered(bs, x) <==> Covered(bs + cs, x) && !Covered(cs, x)
  {
    assert forall b, c :: b in bs && c in cs ==> Apart(b, c);
    if Covered(bs, x) {
      var b :| b in bs && b.Has(x);
      assert b in bs + cs;
    }
  }

  /** Releasing everything that was allocated, in any order, restores exactly the free blocks. */
  lemma FreeingAllRestores(p: Pool, ops: seq<Op>, q: Pool, orders: nat)
    requires PoolInv(p, orders) && IsRun(p, ops, q, orders)
    requires q.live == p.live
    ensures q.free == p.free
  {
    HistoryIndependence(p, ops, q, [], p, orders);
  }
}
