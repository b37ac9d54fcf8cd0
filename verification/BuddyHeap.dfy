/**
 The byte heap: its free lists are intrusive, that is, the first word of every free block
 holds the address of the next free block of the same order.
 */
module IntrusiveLists {

  /** Word contents by address; the address 0 is the null pointer. */
  type Memory = map<nat, nat>

  /** The i-th address of a list, or the null pointer past its end. */
  function At(xs: seq<nat>, i: nat): nat {
    if i < |xs| then xs[i] else 0
  }

  /** The word at the i-th address holds the next address. */
  ghost predicate LinkAt(mem: Memory, xs: seq<nat>, i: nat) {
    i < |xs| && xs[i] != 0 && xs[i] in mem && mem[xs[i]] == At(xs, i + 1)
  }

  /** The words at `xs` chain them from `head` to the null pointer. */
  ghost predicate Chain(mem: Memory, head: nat, xs: seq<nat>) {
    && head == At(xs, 0) && (head == 0 <==> xs == [])
    && forall i: nat :: i < |xs| ==> LinkAt(mem, xs, i)
  }

  /** A chain that reaches the null pointer has no cycle. */
  lemma {:induction false} ChainAcyclic(mem: Memory, head: nat, xs: seq<nat>, i: nat, j: nat)
    requires Chain(mem, head, xs) && i < j < |xs|
    ensures xs[i] != xs[j]
    decreases |xs| - j
  {
    assert LinkAt(mem, xs, i) && LinkAt(mem, xs, j);
    if j + 1 < |xs| {
      ChainAcyclic(mem, head, xs, i + 1, j + 1);
    } else {
      assert LinkAt(mem, xs, i + 1);
    }
  }

  lemma ChainDistinct(mem: Memory, head: nat, xs: seq<nat>, i: nat)
    requires Chain(mem, head, xs) && i < |xs|
    ensures xs[i] > 0 && xs[i] in mem
    ensures forall j :: 0 <= j < |xs| && j != i ==> xs[j] != xs[i]
  {
    assert LinkAt(mem, xs, i);
    forall j | 0 <= j < |xs| && j != i
      ensures xs[j] != xs[i]
    {
      if j < i {
        ChainAcyclic(mem, head, xs, j, i);
      } else {
        ChainAcyclic(mem, head, xs, i, j);
      }
    }
  }

  /** Memory and head determine the list. */
  lemma {:induction false} ChainUnique(mem: Memory, head: nat, xs: seq<nat>, ys: seq<nat>)
    requires Chain(mem, head, xs) && Chain(mem, head, ys)
    ensures xs == ys
    decreases |xs|
  {
    assert xs != [] ==> LinkAt(mem, xs, 0);
    assert ys != [] ==> LinkAt(mem, ys, 0);
    if xs != [] && ys != [] {
      ChainTail(mem, head, xs);
      ChainTail(mem, head, ys);
      ChainUnique(mem, mem[head], xs[1..], ys[1..]);
      assert xs == [xs[0]] + xs[1..] && ys == [ys[0]] + ys[1..];
    }
  }

  lemma ChainTail(mem: Memory, head: nat, xs: seq<nat>)
    requires Chain(mem, head, xs) && xs != []
    ensures head in mem && Chain(mem, mem[head], xs[1..])
  {
    assert LinkAt(mem, xs, 0);
    assert |xs| > 1 ==> LinkAt(mem, xs, 1);
    forall i: nat | i < |xs| - 1
      ensures LinkAt(mem, xs[1..], i)
    {
      assert LinkAt(mem, xs, i + 1);
    }
  }

  lemma ChainPush(mem: Memory, head: nat, xs: seq<nat>, item: nat)
    requires Chain(mem, head, xs) && item != 0 && item !in xs
    ensures Chain(mem[item := head], item, [item] + xs)
  {
    var mem', longer := mem[item := head], [item] + xs;
    forall i: nat | i < |longer|
      ensures LinkAt(mem', longer, i)
    {
      if i > 0 {
        assert LinkAt(mem, xs, i - 1);
        assert xs[i - 1] in xs;
      }
    }
  }

  /** A write to any other word leaves the chain as it is. */
  lemma ChainFrame(mem: Memory, head: nat, xs: seq<nat>, a: nat, v: nat)
    requires Chain(mem, head, xs) && a !in xs
    ensures Chain(mem[a := v], head, xs)
  {
    var mem' := mem[a := v];
    forall i: nat | i < |xs|
      ensures LinkAt(mem', xs, i)
    {
      assert LinkAt(mem, xs, i);
      assert xs[i] in xs;
    }
  }

  /** Where the mutable iterator came from: the head field or the word of the previous node. */
  datatype Link = HeadField | WordAt(address: nat)

  /** Copying the word of node `i` over the link that leads to it takes the node out. */
  lemma ChainUnlink(mem: Memory, head: nat, xs: seq<nat>, i: nat)
    requires Chain(mem, head, xs) && i < |xs| && LinkAt(mem, xs, i)
    ensures var xs' := xs[..i] + xs[i + 1..];
            && (i == 0 ==> Chain(mem, mem[xs[0]], xs'))
            && (i > 0 ==> Chain(mem[xs[i - 1] := mem[xs[i]]], head, xs'))
  {
    var xs' := xs[..i] + xs[i + 1..];
    if i == 0 {
      ChainTail(mem, head, xs);
      assert xs' == xs[1..];
    } else {
      ChainDistinct(mem, head, xs, i - 1);
      var mem' := mem[xs[i - 1] := mem[xs[i]]];
      forall j: nat | j < |xs'|
        ensures LinkAt(mem', xs', j)
      {
        if j < i {
          assert xs'[j] == xs[j] && LinkAt(mem, xs, j);
        } else {
          assert xs'[j] == xs[j + 1] && LinkAt(mem, xs, j + 1);
        }
      }
    }
  }
}

module BuddyHeaps {
  import opened Bits
  import opened Common
  import opened BuddyBlocks
  import opened RangeDecomposition
  import opened IntrusiveLists
  import opened FrameAllocators

  const WORD_ORDER: nat := 3
  const WORD_BYTES: nat := 8

  ghost predicate Listed(lists: seq<seq<nat>>, b: Block) {
    b.order < |lists| && b.start in lists[b.order]
  }

  /** The lists of starts, one per order, hold exactly the blocks of `free`. */
  ghost predicate Holds(lists: seq<seq<nat>>, free: set<Block>) {
    forall b: Block :: b in free <==> Listed(lists, b)
  }

  lemma HoldsPush(lists: seq<seq<nat>>, free: set<Block>, k: nat, s: nat)
    requires Holds(lists, free) && k < |lists|
    ensures Holds(lists[k := [s] + lists[k]], free + {Block(s, k)})
  {
  }

  lemma HoldsRemove(lists: seq<seq<nat>>, free: set<Block>, k: nat, i: nat)
    requires Holds(lists, free) && k < |lists| && i < |lists[k]|
    requires forall j :: 0 <= j < |lists[k]| && j != i ==> lists[k][j] != lists[k][i]
    ensures Holds(lists[k := lists[k][..i] + lists[k][i + 1..]], free - {Block(lists[k][i], k)})
  {
    var xs := lists[k];
    var ys := xs[..i] + xs[i + 1..];
    forall x: nat
      ensures x in ys <==> x in xs && x != xs[i]
    {
      if x in xs && x != xs[i] {
        var j :| 0 <= j < |xs| && xs[j] == x;
        assert ys[if j < i then j else j - 1] == x;
      }
      if x in ys {
        var j :| 0 <= j < |ys| && ys[j] == x;
        assert xs[if j < i then j else j + 1] == x;
      }
    }
  }

  ghost predicate DistinctStarts(bs: set<Block>) {
    forall a, b :: a in bs && b in bs && a != b ==> a.start != b.start
  }

  ghost predicate Unused(bs: set<Block>, x: nat) {
    forall b :: b in bs ==> b.start != x
  }

  // The guards of the invariants of the heap.

  ghost predicate SoundGuard(g: Guard, bs: set<Block>, orders: nat) { g == Key }

  ghost predicate WiredGuard(g: Guard, mem: Memory, hs: seq<nat>, lists: seq<seq<nat>>, free: set<Block>) { g == Key }

  ghost predicate AccountsGuard(g: Guard, free: set<Block>, live: map<Block, nat>) { g == Key }

  /** The blocks are well-formed. */
  ghost predicate Sound(bs: set<Block>, orders: nat) {
    forall g :: SoundGuard(g, bs, orders) ==> WellFormed(bs, orders)
  }

  /** The heads and the words of memory chain, order by order, the starts of the free blocks. */
  ghost predicate Wired(mem: Memory, hs: seq<nat>, lists: seq<seq<nat>>, free: set<Block>) {
    && |hs| == |lists|
    && forall g :: WiredGuard(g, mem, hs, lists, free) ==> Wiring(mem, hs, lists, free)
  }

  ghost predicate Wiring(mem: Memory, hs: seq<nat>, lists: seq<seq<nat>>, free: set<Block>)
    requires |hs| == |lists|
  {
    && Holds(lists, free)
    && DistinctStarts(free)
    && forall k :: 0 <= k < |hs| ==> Chain(mem, hs[k], lists[k])
  }

  lemma WiredHead(mem: Memory, hs: seq<nat>, lists: seq<seq<nat>>, free: set<Block>, k: nat)
    requires Wired(mem, hs, lists, free) && k < |hs|
    ensures hs[k] == At(lists[k], 0) && (hs[k] == 0 <==> lists[k] == [])
    ensures lists[k] != [] ==> Block(hs[k], k) in free
  {
    assert WiredGuard(Key, mem, hs, lists, free);
    assert lists[k] != [] ==> Listed(lists, Block(hs[k], k));
  }

  lemma WiredListed(mem: Memory, hs: seq<nat>, lists: seq<seq<nat>>, free: set<Block>, b: Block)
    requires Wired(mem, hs, lists, free)
    ensures b in free <==> Listed(lists, b)
  {
    assert WiredGuard(Key, mem, hs, lists, free);
  }

  lemma WiredPositive(mem: Memory, hs: seq<nat>, lists: seq<seq<nat>>, free: set<Block>, b: Block)
    requires Wired(mem, hs, lists, free) && b in free
    ensures b.start > 0
  {
    assert WiredGuard(Key, mem, hs, lists, free);
    assert Listed(lists, b);
    var i: nat :| i < |lists[b.order]| && lists[b.order][i] == b.start;
    assert LinkAt(mem, lists[b.order], i);
  }

  lemma WiredPush(mem: Memory, hs: seq<nat>, lists: seq<seq<nat>>, free: set<Block>, k: nat, item: nat)
    requires Wired(mem, hs, lists, free) && k < |hs| && item != 0 && Unused(free, item)
    ensures Wired(mem[item := hs[k]], hs[k := item], lists[k := [item] + lists[k]], free + {Block(item, k)})
  {
    assert WiredGuard(Key, mem, hs, lists, free);
    forall j | 0 <= j < |hs|
      ensures item !in lists[j] && Chain(mem[item := hs[k]], hs[j], lists[j])
    {
      assert item in lists[j] ==> Listed(lists, Block(item, j));
      ChainFrame(mem, hs[j], lists[j], item, hs[k]);
    }
    ChainPush(mem, hs[k], lists[k], item);
    HoldsPush(lists, free, k, item);
  }

  lemma WiredPop(mem: Memory, hs: seq<nat>, lists: seq<seq<nat>>, free: set<Block>, k: nat)
    requires Wired(mem, hs, lists, free) && k < |hs| && hs[k] != 0
    ensures hs[k] in mem && lists[k] != []
    ensures Wired(mem, hs[k := mem[hs[k]]], lists[k := lists[k][1..]], free - {Block(hs[k], k)})
  {
    assert WiredGuard(Key, mem, hs, lists, free);
    var xs := lists[k];
    ChainTail(mem, hs[k], xs);
    ChainDistinct(mem, hs[k], xs, 0);
    HoldsRemove(lists, free, k, 0);
    assert xs[..0] + xs[1..] == xs[1..];
  }

  /** Following the word of a node leads to the next one. */
  lemma WiredNext(mem: Memory, hs: seq<nat>, lists: seq<seq<nat>>, free: set<Block>, k: nat, i: nat)
    requires Wired(mem, hs, lists, free) && k < |hs| && i < |lists[k]|
    ensures lists[k][i] in mem && mem[lists[k][i]] == At(lists[k], i + 1) && lists[k][i] > 0
    ensures i + 1 < |lists[k]| ==> lists[k][i + 1] > 0
  {
    assert WiredGuard(Key, mem, hs, lists, free);
    assert LinkAt(mem, lists[k], i);
    assert i + 1 < |lists[k]| ==> LinkAt(mem, lists[k], i + 1);
  }

  /** Copying the word of a node over the link that leads to it takes exactly this node out. */
  lemma WiredUnlink(mem: Memory, hs: seq<nat>, lists: seq<seq<nat>>, free: set<Block>, k: nat, i: nat)
    requires Wired(mem, hs, lists, free) && k < |hs| && i < |lists[k]| && lists[k][i] in mem
    ensures var xs := lists[k];
            var lists' := lists[k := xs[..i] + xs[i + 1..]];
            var free' := free - {Block(xs[i], k)};
            && (i == 0 ==> Wired(mem, hs[k := mem[xs[0]]], lists', free'))
            && (i > 0 ==> Wired(mem[xs[i - 1] := mem[xs[i]]], hs, lists', free'))
  {
    assert WiredGuard(Key, mem, hs, lists, free);
    var xs := lists[k];
    assert LinkAt(mem, xs, i);
    ChainDistinct(mem, hs[k], xs, i);
    HoldsRemove(lists, free, k, i);
    ChainUnlink(mem, hs[k], xs, i);
    if i > 0 {
      var a := xs[i - 1];
      assert Listed(lists, Block(a, k));
      forall j | 0 <= j < |hs| && j != k
        ensures Chain(mem[a := mem[xs[i]]], hs[j], lists[j])
      {
        assert Block(a, j) !in free;
        ChainFrame(mem, hs[j], lists[j], a, mem[xs[i]]);
      }
    }
  }

  /** A write outside the free blocks does not touch the lists. */
  lemma WiredFrame(mem: Memory, hs: seq<nat>, lists: seq<seq<nat>>, free: set<Block>, a: nat, v: nat)
    requires Wired(mem, hs, lists, free) && Unused(free, a)
    ensures Wired(mem[a := v], hs, lists, free)
  {
    assert WiredGuard(Key, mem, hs, lists, free);
    forall k | 0 <= k < |hs|
      ensures Chain(mem[a := v], hs[k], lists[k])
    {
      assert a in lists[k] ==> Listed(lists, Block(a, k));
      ChainFrame(mem, hs[k], lists[k], a, v);
    }
  }

  // ---------------------------------------------------------------- layouts

  /** A requested size and an alignment, which is a power of two. */
  datatype Layout = Layout(size: nat, align: nat) {
    ghost predicate Valid() { IsPow2(align) }

    function BlockSize(): nat { Max(NextPow2(size), Max(align, WORD_BYTES)) }
  }

  /** The block size is the least power of two that meets size, alignment and word size. */
  lemma BlockSizeFacts(l: Layout)
    requires l.Valid()
    ensures IsPow2(l.BlockSize())
    ensures TrailingZeros(l.BlockSize()) >= WORD_ORDER
    ensures l.BlockSize() >= l.size && l.BlockSize() >= l.align
    ensures forall j: nat :: Pow2(j) >= l.size && Pow2(j) >= l.align && j >= WORD_ORDER ==> l.BlockSize() <= Pow2(j)
  {
    NextPow2Bounds(l.size);
    assert Pow2(WORD_ORDER) == WORD_BYTES;
    var a := TrailingZeros(l.align);
    MaxOfPow2(a, WORD_ORDER);
    MaxOfPow2(CeilLog2(l.size), Max(a, WORD_ORDER));
    TrailingZerosOfPow2(Max(CeilLog2(l.size), Max(a, WORD_ORDER)));
    forall j: nat | Pow2(j) >= l.size && Pow2(j) >= l.align && j >= WORD_ORDER
      ensures l.BlockSize() <= Pow2(j)
    {
      NextPow2Least(l.size, j);
      Pow2Monotone(WORD_ORDER, j);
    }
  }

  lemma {:induction false} NextPow2Least(x: nat, j: nat)
    requires Pow2(j) >= x
    ensures NextPow2(x) <= Pow2(j)
    decreases j
  {
    if x > 1 {
      NextPow2Least((x + 1) / 2, j - 1);
    }
  }

  /** The sum of the requested sizes of the live blocks. */
  ghost function Requested(live: map<Block, nat>): nat {
    if live == map[] then 0
    else
      var b :| b in live;
      live[b] + Requested(live - {b})
  }

  lemma {:induction false} RequestedRemove(live: map<Block, nat>, b: Block)
    requires b in live
    ensures Requested(live) == live[b] + Requested(live - {b})
    decreases |live|
  {
    var c :| c in live && Requested(live) == live[c] + Requested(live - {c});
    if c != b {
      RequestedRemove(live - {c}, b);
      RequestedRemove(live - {b}, c);
      assert live - {c} - {b} == live - {b} - {c};
    }
  }

  lemma RequestedAdd(live: map<Block, nat>, b: Block, n: nat)
    requires b !in live
    ensures Requested(live[b := n]) == Requested(live) + n
  {
    RequestedRemove(live[b := n], b);
    assert live[b := n] - {b} == live;
  }

  // ---------------------------------------------------------------- ranges of whole words

  function RoundUpWord(x: nat): nat { (x + WORD_BYTES - 1) / WORD_BYTES * WORD_BYTES }

  function RoundDownWord(x: nat): nat { x / WORD_BYTES * WORD_BYTES }

  lemma WordAligned(x: nat)
    ensures Aligned(x, WORD_ORDER) <==> x % WORD_BYTES == 0
  {
    assert Aligned(x, 3) <==> x % 2 == 0 && x / 2 % 2 == 0 && x / 2 / 2 % 2 == 0;
  }

  lemma RoundedWords(start: nat, end: nat)
    requires start > 0
    ensures RoundUpWord(start) > 0 && Aligned(RoundUpWord(start), WORD_ORDER) && Aligned(RoundDownWord(end), WORD_ORDER)
  {
    WordAligned(RoundUpWord(start));
    WordAligned(RoundDownWord(end));
  }

  /** The bytes of [start, end) whose whole word, which begins at a multiple of 8, lies in the range. */
  ghost function WholeWordBytes(start: nat, end: nat): set<nat> {
    set x: nat | start <= x < end && start <= x - x % 8 && x - x % 8 + 8 <= end
  }

  /** The word of a byte is the only multiple of 8 at most seven bytes below it. */
  lemma WholeWordBytesAre(start: nat, end: nat, x: nat)
    ensures x in WholeWordBytes(start, end) <==>
            exists w: nat :: Aligned(w, WORD_ORDER) && w <= x < w + 8 && start <= w && w + 8 <= end
  {
    var word := x - x % 8;
    WordAligned(word);
    assert word % 8 == 0 && word <= x < word + 8;
    if w: nat :| Aligned(w, WORD_ORDER) && w <= x < w + 8 && start <= w && w + 8 <= end {
      WordAligned(w);
      OnlyWord(w, word, x);
    }
  }

  lemma OnlyWord(v: nat, w: nat, x: nat)
    requires v % 8 == 0 && w % 8 == 0 && v <= x < v + 8 && w <= x < w + 8
    ensures v == w
  {
    assert v == 8 * (v / 8) && w == 8 * (w / 8);
  }

  /** The rounded bounds enclose exactly these bytes, and there are as many as the bounds are apart. */
  lemma RoundedBounds(start: nat, end: nat)
    ensures forall x: nat :: x in WholeWordBytes(start, end) <==> InSpan(x, RoundUpWord(start), RoundDownWord(end))
    ensures |WholeWordBytes(start, end)| == if RoundUpWord(start) <= RoundDownWord(end)
                                            then RoundDownWord(end) - RoundUpWord(start) else 0
    ensures RoundUpWord(start) <= RoundDownWord(end) <==> (start + 7) / 8 <= end / 8
  {
    var first, last := RoundUpWord(start), RoundDownWord(end);
    forall x: nat
      ensures x in WholeWordBytes(start, end) <==> InSpan(x, first, last)
    {
      WordBetween(start, end, x);
    }
    if first <= last {
      assert WholeWordBytes(start, end) == BytesOf(first, last);
      BytesBetween(first, last);
    } else {
      assert WholeWordBytes(start, end) == {};
    }
  }

  lemma WordBetween(start: nat, end: nat, x: nat)
    ensures RoundUpWord(start) <= x < RoundDownWord(end) <==>
            start <= x < end && start <= x - x % 8 && x - x % 8 + 8 <= end
  {
    var up, down, word := (start + 7) / 8, end / 8, x / 8;
    assert start <= 8 * up < start + 8 && 8 * down <= end < 8 * down + 8 && 8 * word <= x < 8 * word + 8;
    assert x - x % 8 == 8 * word;
  }

  ghost function BytesOf(first: nat, last: nat): set<nat> {
    set x: nat | first <= x < last && InSpan(x, first, last)
  }

  lemma {:induction false} BytesBetween(first: nat, last: nat)
    requires first <= last
    ensures |BytesOf(first, last)| == last - first
    decreases last - first
  {
    if first < last {
      BytesBetween(first, last - 1);
      assert BytesOf(first, last) == BytesOf(first, last - 1) + {last - 1};
    }
  }

  /** Cutting word-aligned ranges with at least four orders gives word-aligned blocks only. */
  lemma ChunkIsWords(cur: nat, end: nat, orders: nat)
    requires 0 < cur < end && orders > WORD_ORDER
    requires Aligned(cur, WORD_ORDER) && Aligned(end, WORD_ORDER)
    ensures ChunkOrder(cur, end, orders) >= WORD_ORDER
    ensures cur + WORD_BYTES <= end
    ensures Aligned(cur + Pow2(ChunkOrder(cur, end, orders)), WORD_ORDER)
  {
    var k := ChunkOrder(cur, end, orders);
    AlignedSub(end, cur, WORD_ORDER);
    AlignedIsLarge(end - cur, WORD_ORDER);
    assert Pow2(WORD_ORDER) == WORD_BYTES;
    LogAtLeast(end - cur, WORD_ORDER);
    LowBitIsPow2(cur);
    if TrailingZeros(cur) < WORD_ORDER {
      AlignedWeaken(cur, TrailingZeros(cur) + 1, WORD_ORDER);
    }
    Pow2Aligned(k, WORD_ORDER);
    AlignedAdd(cur, Pow2(k), WORD_ORDER);
  }

  lemma {:induction false} DecomposeIsWords(cur: nat, end: nat, orders: nat)
    requires 0 < cur && orders > WORD_ORDER
    requires Aligned(cur, WORD_ORDER) && Aligned(end, WORD_ORDER)
    ensures forall b :: b in Decompose(cur, end, orders) ==> b.order >= WORD_ORDER && b.start > 0
    decreases end - cur
  {
    if cur < end {
      ChunkFacts(cur, end, orders);
      ChunkIsWords(cur, end, orders);
      DecomposeIsWords(cur + Pow2(ChunkOrder(cur, end, orders)), end, orders);
    }
  }

  /** The size computed with the order cap of the heap is the chunk of the decomposition. */
  lemma CappedChunk(cur: nat, end: nat, orders: nat)
    requires 0 < cur < end && orders > 0
    ensures var size := Min(LowBit(cur), PrevPow2(end - cur));
            && size > 0
            && Min(TrailingZeros(size), orders - 1) == ChunkOrder(cur, end, orders)
            && size == Pow2(TrailingZeros(size))
  {
    LowBitIsPow2(cur);
    PrevPow2Bounds(end - cur);
    MinOfPow2(TrailingZeros(cur), Log2(end - cur));
    TrailingZerosOfPow2(Min(TrailingZeros(cur), Log2(end - cur)));
  }

  // ---------------------------------------------------------------- accounts

  /**
   Free and live blocks partition exactly the managed bytes; the three counters are the
   requested bytes, the bytes of the live blocks and the bytes of all blocks.
   */
  ghost predicate Accounts(free: set<Block>, live: map<Block, nat>, managed: iset<nat>,
                           user: nat, actual: nat, total: nat, orders: nat)
  {
    && orders > WORD_ORDER
    && forall g :: AccountsGuard(g, free, live) ==> Books(free, live, managed, user, actual, total, orders)
  }

  ghost predicate Books(free: set<Block>, live: map<Block, nat>, managed: iset<nat>,
                        user: nat, actual: nat, total: nat, orders: nat)
  {
    && free !! live.Keys && WellFormed(free + live.Keys, orders)
    && (forall b :: b in free + live.Keys ==> b.order >= WORD_ORDER && b.start > 0)
    && (forall x: nat :: x in managed <==> Covered(free + live.Keys, x))
    && actual == Units(live.Keys)
    && user == Requested(live)
    && Units(free) == total - actual
  }

  lemma AccountsAdd(free: set<Block>, live: map<Block, nat>, managed: iset<nat>,
                    user: nat, actual: nat, total: nat, orders: nat, start: nat, end: nat)
    requires Accounts(free, live, managed, user, actual, total, orders)
    requires 0 < start <= end && Aligned(start, WORD_ORDER) && Aligned(end, WORD_ORDER)
    requires forall x: nat :: InSpan(x, start, end) ==> x !in managed
    ensures Accounts(free + Decompose(start, end, orders), live, managed + Span(start, end),
                     user, actual, total + (end - start), orders)
    ensures forall b :: b in free ==> !InSpan(b.start, start, end)
  {
    assert AccountsGuard(Key, free, live);
    AddFacts(free, live.Keys, start, end, orders);
    DecomposeIsWords(start, end, orders);
    forall b | b in free
      ensures !InSpan(b.start, start, end)
    {
      assert b in free + live.Keys && b.Has(b.start);
      assert Covered(free + live.Keys, b.start);
    }
  }

  lemma AccountsTake(free: set<Block>, live: map<Block, nat>, managed: iset<nat>,
                     user: nat, actual: nat, total: nat, orders: nat, b: Block, k: nat, n: nat)
    requires Accounts(free, live, managed, user, actual, total, orders)
    requires b in free && WORD_ORDER <= k <= b.order
    ensures Block(b.start, k) !in live
    ensures Accounts(Carve(free, b, k), live[Block(b.start, k) := n], managed,
                     user + n, actual + Pow2(k), total, orders)
    ensures Canonical(free, orders - 1) ==> Canonical(Carve(free, b, k), orders - 1)
    ensures Block(b.start, k).IsAligned() && b.start > 0
    ensures forall c :: c in live ==> Apart(Block(b.start, k), c)
    ensures Sound(free, orders)
  {
    assert AccountsGuard(Key, free, live);
    var taken := Block(b.start, k);
    TakeFacts(free, live.Keys, b, k, orders);
    CarveIsWords(free, b, k);
    RequestedAdd(live, taken, n);
    assert live[taken := n].Keys == live.Keys + {taken};
    assert taken in Carve(free, b, k) + (live.Keys + {taken});
    SubsetWellFormed(free, free + live.Keys, orders);
  }

  lemma AccountsGive(free: set<Block>, live: map<Block, nat>, managed: iset<nat>,
                     user: nat, actual: nat, total: nat, orders: nat, b: Block)
    requires Accounts(free, live, managed, user, actual, total, orders) && b in live
    ensures user >= live[b] && actual >= b.Size()
    ensures Accounts(MergeUp(free, b, orders - 1), live - {b}, managed,
                     user - live[b], actual - b.Size(), total, orders)
    ensures Canonical(free, orders - 1) ==> Canonical(MergeUp(free, b, orders - 1), orders - 1)
  {
    BooksGive(free, live, managed, user, actual, total, orders, b);
  }

  lemma BooksGive(free: set<Block>, live: map<Block, nat>, managed: iset<nat>,
                  user: nat, actual: nat, total: nat, orders: nat, b: Block)
    requires Accounts(free, live, managed, user, actual, total, orders) && b in live
    ensures user >= live[b] && actual >= b.Size()
    ensures Books(MergeUp(free, b, orders - 1), live - {b}, managed,
                  user - live[b], actual - b.Size(), total, orders)
    ensures Canonical(free, orders - 1) ==> Canonical(MergeUp(free, b, orders - 1), orders - 1)
  {
    assert AccountsGuard(Key, free, live);
    var rest := live.Keys - {b};
    assert free + rest + {b} == free + live.Keys;
    assert (live - {b}).Keys == rest;
    BlocksGive(free, rest, managed, orders, b);
    GiveCounts(free, rest, b, orders);
    UnitsRemove(live.Keys, b);
    RequestedRemove(live, b);
  }

  /** Releasing a block keeps the partition of the managed bytes and the smallest order. */
  lemma BlocksGive(free: set<Block>, rest: set<Block>, managed: iset<nat>, orders: nat, b: Block)
    requires orders > WORD_ORDER && free !! rest && b !in free && b !in rest && WellFormed(free + rest + {b}, orders)
    requires forall c :: c in free + rest + {b} ==> c.order >= WORD_ORDER && c.start > 0
    requires forall x: nat :: x in managed <==> Covered(free + rest + {b}, x)
    ensures MergeUp(free, b, orders - 1) !! rest && WellFormed(MergeUp(free, b, orders - 1) + rest, orders)
    ensures forall c :: c in MergeUp(free, b, orders - 1) + rest ==> c.order >= WORD_ORDER && c.start > 0
    ensures forall x: nat :: x in managed <==> Covered(MergeUp(free, b, orders - 1) + rest, x)
  {
    MergeUpKeeps(free, rest, b, orders - 1, orders);
    MergeUpIsWords(free, b, orders - 1);
  }

  lemma AccountsLive(free: set<Block>, live: map<Block, nat>, managed: iset<nat>,
                     user: nat, actual: nat, total: nat, orders: nat, b: Block)
    requires Accounts(free, live, managed, user, actual, total, orders) && b in live
    ensures b !in free && Sound(free + {b}, orders) && b.start > 0 && b.order < orders
  {
    assert AccountsGuard(Key, free, live);
    SubsetWellFormed(free + {b}, free + live.Keys, orders);
  }

  // ---------------------------------------------------------------- the heap

  class Heap {
    const orders: nat
    /** `free_list[k].head` */
    const heads: array<nat>
    var mem: Memory
    var user: nat
    var actual: nat
    var total: nat
    /** The addresses chained from each head, and the blocks that start there. */
    ghost var lists: seq<seq<nat>>
    ghost var free: set<Block>
    /** The blocks handed out, with the size requested for each. */
    ghost var live: map<Block, nat>
    /** The bytes ever added. */
    ghost var managed: iset<nat>

    ghost predicate Linked()
      reads this, heads
    {
      && heads.Length == orders
      && |lists| == orders
      && Wired(mem, heads[..], lists, free)
    }

    ghost predicate Valid()
      reads this, heads
    {
      Linked() && Accounts(free, live, managed, user, actual, total, orders)
    }

    constructor (orders: nat)
      requires orders > WORD_ORDER
      ensures Valid() && fresh(heads) && this.orders == orders
      ensures free == {} && live == map[] && managed == iset{} && total == 0
    {
      this.orders := orders;
      heads := new nat[orders](_ => 0);
      mem := map[];
      user, actual, total := 0, 0, 0;
      lists := seq(orders, _ => []);
      free, live, managed := {}, map[], iset{};
    }

    /** `LinkedList::push` on the k-th list. */
    method Push(k: nat, item: nat)
      requires Linked() && k < orders && item != 0 && Unused(free, item)
      modifies this`mem, this`lists, this`free, heads
      ensures Linked() && lists == old(lists)[k := [item] + old(lists[k])]
      ensures free == old(free) + {Block(item, k)}
    {
      WiredPush(mem, heads[..], lists, free, k, item);
      mem := mem[item := heads[k]];
      ghost var hs := heads[..];
      heads[k] := item;
      assert heads[..] == hs[k := item];
      lists, free := lists[k := [item] + lists[k]], free + {Block(item, k)};
    }

    /** `LinkedList::pop` on the k-th list. */
    method Pop(k: nat) returns (r: Option<nat>)
      requires Linked() && k < orders
      modifies this`lists, this`free, heads
      ensures Linked()
      ensures r.None? <==> old(lists[k]) == []
      ensures r.None? ==> lists == old(lists) && free == old(free)
      ensures r.Some? ==> r.value == old(lists[k])[0] && lists == old(lists)[k := old(lists[k])[1..]]
      ensures r.Some? ==> free == old(free) - {Block(r.value, k)}
    {
      WiredHead(mem, heads[..], lists, free, k);
      if heads[k] == 0 {
        return None;
      }
      WiredPop(mem, heads[..], lists, free, k);
      var item := heads[k];
      ghost var hs := heads[..];
      heads[k] := mem[item];
      assert heads[..] == hs[k := mem[item]];
      lists, free := lists[k := lists[k][1..]], free - {Block(item, k)};
      r := Some(item);
    }

    /**
     The search of the k-th list through the mutable iterator: the node that holds `target`
     is taken out by copying its word over the link that leads to it.
     */
    method Unlink(k: nat, target: nat) returns (found: bool, ghost at: nat)
      requires Linked() && k < orders
      modifies this`mem, this`lists, this`free, heads
      ensures Linked()
      ensures found <==> target in old(lists[k])
      ensures !found ==> lists == old(lists) && free == old(free) && mem == old(mem)
      ensures found ==> at < |old(lists[k])| && old(lists[k])[at] == target
      ensures found ==> lists == old(lists)[k := old(lists[k])[..at] + old(lists[k])[at + 1..]]
      ensures found ==> free == old(free) - {Block(target, k)}
    {
      ghost var xs := lists[k];
      at := 0;
      ghost var hs := heads[..];
      WiredHead(mem, hs, lists, free, k);
      var prev := HeadField;
      var curr := heads[k];
      while curr != 0 && curr != target
        invariant at <= |xs| && curr == At(xs, at) && (curr == 0 <==> at == |xs|)
        invariant prev == (if at == 0 then HeadField else WordAt(xs[at - 1]))
        invariant target !in xs[..at]
        decreases |xs| - at
        modifies {}
      {
        WiredNext(mem, hs, lists, free, k, at);
        prev := WordAt(curr);
        curr := mem[curr];
        at := at + 1;
      }
      found := curr != 0;
      assert heads[..] == hs;
      if found {
        UnlinkAt(k, prev, curr, at);
      } else {
        assert xs[..at] == xs;
      }
    }

    /** `ListNode::pop`. */
    method UnlinkAt(k: nat, prev: Link, curr: nat, ghost i: nat)
      requires Linked() && k < orders && i < |lists[k]| && curr == lists[k][i]
      requires prev == (if i == 0 then HeadField else WordAt(lists[k][i - 1]))
      modifies this`mem, this`lists, this`free, heads
      ensures Linked() && lists == old(lists)[k := old(lists[k])[..i] + old(lists[k])[i + 1..]]
      ensures free == old(free) - {Block(curr, k)}
    {
      WiredNext(mem, heads[..], lists, free, k, i);
      WiredUnlink(mem, heads[..], lists, free, k, i);
      match prev {
        case WordAt(address) =>
          mem := mem[address := mem[curr]];
        case HeadField =>
          ghost var hs := heads[..];
          heads[k] := mem[curr];
          assert heads[..] == hs[k := mem[curr]];
      }
      lists, free := lists[k := lists[k][..i] + lists[k][i + 1..]], free - {Block(curr, k)};
    }

    // -------------------------------------------------------------- adding memory

    /** Adds the whole words of [start, end); the assertion on the rounded bounds is the result `ok`. */
    method AddToHeap(start: nat, end: nat) returns (ok: bool)
      requires Valid() && start > 0
      requires forall x: nat :: x in WholeWordBytes(start, end) ==> x !in managed
      modifies this`mem, this`lists, this`free, this`total, this`managed, heads
      ensures Valid()
      ensures ok <==> (start + 7) / 8 <= end / 8
      ensures !ok ==> lists == old(lists) && mem == old(mem)
      ensures ok ==> free == old(free) + Decompose(RoundUpWord(start), RoundDownWord(end), orders)
      ensures forall x: nat :: x in managed <==>
                x in old(managed) || (start <= x < end && start <= x - x % 8 && x - x % 8 + 8 <= end)
      ensures total == old(total) + |WholeWordBytes(start, end)|
    {
      RoundedBounds(start, end);
      var first := RoundUpWord(start);
      var last := RoundDownWord(end);
      if first > last {
        return false;
      }
      RoundedWords(start, end);
      AddWords(first, last);
      ok := true;
    }

    /** Adds a range of whole words. */
    method AddWords(first: nat, last: nat)
      requires Valid() && 0 < first <= last && Aligned(first, WORD_ORDER) && Aligned(last, WORD_ORDER)
      requires forall x: nat :: InSpan(x, first, last) ==> x !in managed
      modifies this`mem, this`lists, this`free, this`total, this`managed, heads
      ensures Valid() && free == old(free) + Decompose(first, last, orders)
      ensures managed == old(managed) + Span(first, last) && total == old(total) + (last - first)
    {
      AccountsAdd(free, live, managed, user, actual, total, orders, first, last);
      var sum := PushRange(first, last);
      total := total + sum;
      managed := managed + Span(first, last);
    }

    method PushRange(start: nat, end: nat) returns (sum: nat)
      requires orders > WORD_ORDER && Linked()
      requires 0 < start <= end && Aligned(start, WORD_ORDER) && Aligned(end, WORD_ORDER)
      requires forall b :: b in free ==> !InSpan(b.start, start, end)
      modifies this`mem, this`lists, this`free, heads
      ensures Linked()
      ensures free == old(free) + Decompose(start, end, orders)
      ensures sum == end - start
    {
      sum := 0;
      var cur := start;
      while cur + WORD_BYTES <= end
        invariant start <= cur <= end && Aligned(cur, WORD_ORDER)
        invariant sum == cur - start
        invariant Linked()
        invariant free + Decompose(cur, end, orders) == old(free) + Decompose(start, end, orders)
        invariant forall b :: b in free ==> !InSpan(b.start, cur, end)
        decreases end - cur
      {
        var size := PushChunk(cur, end);
        sum := sum + size;
        cur := cur + size;
      }
      if cur < end {
        ChunkIsWords(cur, end, orders);
      }
    }

    /** One turn of the loop: the largest block that fits at the cursor. */
    method PushChunk(cur: nat, end: nat) returns (size: nat)
      requires orders > WORD_ORDER && Linked()
      requires 0 < cur < end && Aligned(cur, WORD_ORDER) && Aligned(end, WORD_ORDER)
      requires forall b :: b in free ==> !InSpan(b.start, cur, end)
      modifies this`mem, this`lists, this`free, heads
      ensures Linked() && 0 < size && cur + size <= end && Aligned(cur + size, WORD_ORDER)
      ensures free + Decompose(cur + size, end, orders) == old(free) + Decompose(cur, end, orders)
      ensures forall b :: b in free ==> !InSpan(b.start, cur + size, end)
    {
      ChunkFacts(cur, end, orders);
      ChunkIsWords(cur, end, orders);
      DecomposeStep(cur, end, orders, free);
      var order: nat;
      order, size := NextChunk(cur, end);
      Push(order, cur);
    }

    /** The largest aligned block that starts at `cur`, ends by `end` and has a list. */
    method NextChunk(cur: nat, end: nat) returns (order: nat, size: nat)
      requires 0 < cur < end && orders > 0
      ensures order == ChunkOrder(cur, end, orders) && size == Pow2(order)
    {
      CappedChunk(cur, end, orders);
      var lowbit := LowBit(cur);
      size := Min(lowbit, PrevPow2(end - cur));
      order := TrailingZeros(size);
      if order > orders - 1 {
        order := orders - 1;
        size := Pow2(order);
      }
    }

    // -------------------------------------------------------------- allocation

    /**
     Takes the head of the first nonempty list and splits it down. It fails exactly when no
     list of the needed order or above has a block.
     */
    method Alloc(layout: Layout) returns (r: Option<nat>)
      requires Valid() && layout.Valid()
      modifies this`mem, this`lists, this`free, this`user, this`actual, this`live, heads
      ensures Valid()
      ensures var k := TrailingZeros(layout.BlockSize());
              r.None? <==> forall i :: k <= i < orders ==> old(lists)[i] == []
      ensures r.None? ==> lists == old(lists) && mem == old(mem) && live == old(live)
      ensures r.Some? ==>
                var k := TrailingZeros(layout.BlockSize());
                var b := Block(r.value, k);
                && b !in old(live) && live == old(live)[b := layout.size]
                && b.start > 0 && b.IsAligned() && b.Size() == layout.BlockSize()
                && (forall c :: c in old(live) ==> Apart(b, c))
                && user == old(user) + layout.size && actual == old(actual) + layout.BlockSize()
                && exists i :: k <= i < orders && Block(r.value, i) in old(free) && old(lists)[i] != []
                               && (forall j :: k <= j < i ==> old(lists)[j] == [])
                               && lists == SplitLists(old(lists), r.value, i, k)
                               && free == Carve(old(free), Block(r.value, i), k)
      ensures old(Canonical(free, orders - 1)) ==> Canonical(free, orders - 1)
    {
      BlockSizeFacts(layout);
      var size := layout.BlockSize();
      var k := TrailingZeros(size);
      var i := k;
      ghost var hs := heads[..];
      while i < orders && heads[i] == 0
        invariant k <= i && (i > k ==> i <= orders)
        invariant forall j :: k <= j < i && j < orders ==> lists[j] == []
        decreases orders - i
        modifies {}
      {
        WiredHead(mem, hs, lists, free, i);
        i := i + 1;
      }
      assert heads[..] == hs;
      if i >= orders {
        return None;
      }
      WiredHead(mem, hs, lists, free, i);
      AccountsTake(free, live, managed, user, actual, total, orders, Block(heads[i], i), k, layout.size);
      var result := SplitDown(i, k);
      user := user + layout.size;
      actual := actual + size;
      live := live[Block(result, k) := layout.size];
      r := Some(result);
    }

    /** The split loop. */
    method SplitDown(i: nat, k: nat) returns (result: nat)
      requires Linked() && k <= i < orders && lists[i] != []
      requires forall l :: k <= l < i ==> lists[l] == []
      requires Sound(free, orders)
      modifies this`mem, this`lists, this`free, heads
      ensures Linked()
      ensures result == old(lists[i][0])
      ensures lists == SplitLists(old(lists), result, i, k)
      ensures free == Carve(old(free), Block(result, i), k)
    {
      ghost var m := lists[i][0];
      var j := i;
      while j > k
        invariant k <= j <= i && Linked() && Sound(free, orders)
        invariant lists[j] != [] && lists[j][0] == m
        invariant forall l :: k <= l < j ==> lists[l] == []
        invariant SplitLists(lists, m, j, k) == SplitLists(old(lists), m, i, k)
        invariant Carve(free, Block(m, j), k) == Carve(old(free), Block(m, i), k)
      {
        SplitListsStep(lists, m, j, k);
        SplitHead(j);
        j := j - 1;
      }
      var head := Pop(k);
      result := head.value;
    }

    /** One iteration of the split loop: the head of the j-th list becomes two heads one order below. */
    method SplitHead(j: nat)
      requires Linked() && 0 < j < orders && lists[j] != [] && Sound(free, orders)
      modifies this`mem, this`lists, this`free, heads
      ensures Linked() && Sound(free, orders)
      ensures var m := old(lists[j][0]);
              && lists == old(lists)[j := old(lists[j])[1..]][j - 1 := [m] + ([m + Pow2(j - 1)] + old(lists[j - 1]))]
              && free == SplitOne(old(free), Block(m, j))
    {
      WiredHead(mem, heads[..], lists, free, j);
      ghost var b := Block(lists[j][0], j);
      SplitSound(free, b, orders);
      var block := Pop(j);
      Push(j - 1, block.value + Pow2(j - 1));
      Push(j - 1, block.value);
    }

    // -------------------------------------------------------------- release

    /** Returns a live block with the layout it was allocated for. */
    method Dealloc(ptr: nat, layout: Layout)
      requires Valid() && layout.Valid()
      requires Block(ptr, TrailingZeros(layout.BlockSize())) in live
      requires live[Block(ptr, TrailingZeros(layout.BlockSize()))] == layout.size
      modifies this`mem, this`lists, this`free, this`user, this`actual, this`live, heads
      ensures Valid()
      ensures var b := Block(ptr, TrailingZeros(layout.BlockSize()));
              && live == old(live) - {b}
              && free == MergeUp(old(free), b, orders - 1)
              && user == old(user) - layout.size && actual == old(actual) - layout.BlockSize()
      ensures old(Canonical(free, orders - 1)) ==> Canonical(free, orders - 1)
    {
      BlockSizeFacts(layout);
      var size := layout.BlockSize();
      var k := TrailingZeros(size);
      AccountsGive(free, live, managed, user, actual, total, orders, Block(ptr, k));
      AccountsLive(free, live, managed, user, actual, total, orders, Block(ptr, k));
      MergeFrom(ptr, k);
      user := user - layout.size;
      actual := actual - size;
      live := live - {Block(ptr, k)};
    }

    /**
     The merge loop. The block being merged is the head of its list in every iteration, so
     unlinking the buddy and popping the head removes exactly the two siblings.
     */
    method MergeFrom(ptr: nat, k: nat)
      requires Linked() && k < orders && ptr > 0 && Block(ptr, k) !in free
      requires Sound(free + {Block(ptr, k)}, orders)
      modifies this`mem, this`lists, this`free, heads
      ensures Linked()
      ensures free == MergeUp(old(free), Block(ptr, k), orders - 1)
    {
      ghost var goal := MergeUp(free, Block(ptr, k), orders - 1);
      ReleaseSound(free, Block(ptr, k), orders);
      Push(k, ptr);
      var current := ptr;
      var cls := k;
      var merging := true;
      while merging && cls < orders - 1
        invariant k <= cls <= orders - 1 && Linked()
        invariant Sound(free, orders)
        invariant lists[cls] != [] && lists[cls][0] == current
        invariant Block(current, cls) in free
        invariant merging ==> MergeUp(free - {Block(current, cls)}, Block(current, cls), orders - 1) == goal
        invariant !merging ==> free == goal
        decreases merging, orders - cls
      {
        ghost var before := free;
        ghost var b := Block(current, cls);
        merging := MergeHead(current, cls);
        if merging {
          current := Min(current, FlipBit(current, cls));
          cls := cls + 1;
          MergeSound(before, b, orders);
        } else {
          assert before - {b} + {b} == before;
        }
      }
      if merging {
        assert free == free - {Block(current, cls)} + {Block(current, cls)};
      }
    }

    /** One iteration of the merge loop. */
    method MergeHead(current: nat, cls: nat) returns (found: bool)
      requires Linked() && cls + 1 < orders && Sound(free, orders)
      requires lists[cls] != [] && lists[cls][0] == current && Block(current, cls) in free
      modifies this`mem, this`lists, this`free, heads
      ensures Linked()
      ensures found <==> Block(current, cls).Buddy() in old(free)
      ensures !found ==> lists == old(lists) && free == old(free) && mem == old(mem)
      ensures found ==> free == MergeOne(old(free), Block(current, cls))
      ensures found ==> lists[cls + 1] == [Min(current, FlipBit(current, cls))] + old(lists[cls + 1])
      ensures found ==> exists i :: 0 < i < |old(lists[cls])|
                                    && lists[cls] == old(lists[cls])[1..i] + old(lists[cls])[i + 1..]
    {
      ghost var b := Block(current, cls);
      WiredHead(mem, heads[..], lists, free, cls);
      WiredListed(mem, heads[..], lists, free, b.Buddy());
      ghost var xs := lists[cls];
      ghost var at;
      if b.Buddy() in free {
        WiredPositive(mem, heads[..], lists, free, b.Buddy());
        MergeSound(free, b, orders);
      }
      var buddy := FlipBit(current, cls);
      found, at := Unlink(cls, buddy);
      if found {
        assert at > 0 && xs[..at] + xs[at + 1..] == [xs[0]] + (xs[1..at] + xs[at + 1..]);
        var head := Pop(cls);
        Push(cls + 1, Min(current, buddy));
      }
    }

    /** A store by the owner of a live block, or to memory the heap does not hold, leaves the heap intact. */
    method UserStore(address: nat, value: nat)
      requires Valid() && !Covered(free, address)
      modifies this`mem
      ensures Valid() && mem == old(mem)[address := value]
    {
      forall b | b in free
        ensures b.start != address
      {
        assert b.Has(b.start);
      }
      WiredFrame(mem, heads[..], lists, free, address, value);
      mem := mem[address := value];
    }
  }

  /** The lists after the head `m` of the i-th list has been split down to order `k` and taken. */
  ghost function SplitLists(lists: seq<seq<nat>>, m: nat, i: nat, k: nat): seq<seq<nat>>
    requires k <= i < |lists| && lists[i] != []
  {
    seq(|lists|, j requires 0 <= j < |lists| =>
      if j == i then lists[i][1..] else if k <= j < i then [m + Pow2(j)] else lists[j])
  }

  lemma SplitListsStep(lists: seq<seq<nat>>, m: nat, j: nat, k: nat)
    requires k < j < |lists| && lists[j] != [] && lists[j - 1] == []
    ensures SplitLists(lists[j := lists[j][1..]][j - 1 := [m] + ([m + Pow2(j - 1)] + lists[j - 1])], m, j - 1, k)
            == SplitLists(lists, m, j, k)
  {
    var after := lists[j := lists[j][1..]][j - 1 := [m] + ([m + Pow2(j - 1)] + lists[j - 1])];
    assert after[j - 1][1..] == [m + Pow2(j - 1)];
  }

  /** Splitting a block: its halves start where nothing else starts. */
  lemma SplitSound(bs: set<Block>, b: Block, orders: nat)
    requires Sound(bs, orders) && b in bs && b.order > 0
    ensures Sound(SplitOne(bs, b), orders)
    ensures Unused(bs - {b}, b.start + Pow2(b.order - 1))
    ensures Unused(bs - {b} + {b.Right()}, b.start)
    ensures SplitOne(bs, b) == bs - {b} + {b.Right()} + {b.Left()}
  {
    assert SoundGuard(Key, bs, orders);
    HalvesAreBuddies(b);
    var l, r := b.Left(), b.Right();
    forall c | c in bs && c != b
      ensures c.start != l.start && c.start != r.start && c != l && c != r
    {
      assert Apart(c, b);
    }
    assert r != b && l != b && r.start != l.start;
    SplitOneWellFormed(bs, b, orders);
  }

  /** Merging two siblings: nothing else starts where one of them starts. */
  lemma MergeSound(bs: set<Block>, b: Block, orders: nat)
    requires Sound(bs, orders) && b in bs && b.Buddy() in bs && b.order + 1 < orders
    ensures b.Buddy() != b
    ensures Unused(bs - {b.Buddy()} - {b}, b.Parent().start)
    ensures MergeOne(bs, b) == bs - {b.Buddy()} - {b} + {b.Parent()}
    ensures Sound(MergeOne(bs, b), orders)
    ensures MergeOne(bs, b) - {b.Parent()} == bs - {b} - {b.Buddy()}
    ensures MergeUp(bs - {b}, b, orders - 1) == MergeUp(bs - {b} - {b.Buddy()}, b.Parent(), orders - 1)
  {
    assert SoundGuard(Key, bs, orders);
    BuddyHalves(b);
    MergeOneWellFormed(bs, b, orders);
  }

  /** A live block may be put among the free ones: nothing else starts there. */
  lemma ReleaseSound(bs: set<Block>, b: Block, orders: nat)
    requires Sound(bs + {b}, orders) && b !in bs
    ensures Unused(bs, b.start) && bs + {b} - {b} == bs
  {
    assert SoundGuard(Key, bs + {b}, orders);
  }

  lemma {:induction false} CarveIsWords(free: set<Block>, b: Block, k: nat)
    requires WORD_ORDER <= k <= b.order
    requires forall c :: c in free + {b} ==> c.order >= WORD_ORDER && c.start > 0
    ensures forall c :: c in Carve(free, b, k) ==> c.order >= WORD_ORDER && c.start > 0
    decreases b.order
  {
    if k < b.order {
      CarveIsWords(SplitOne(free, b), b.Left(), k);
    }
  }

  lemma {:induction false} MergeUpIsWords(free: set<Block>, b: Block, limit: nat)
    requires forall c :: c in free + {b} ==> c.order >= WORD_ORDER && c.start > 0
    ensures forall c :: c in MergeUp(free, b, limit) ==> c.order >= WORD_ORDER && c.start > 0
    decreases limit - b.order
  {
    if b.order < limit && b.Buddy() in free {
      MergeUpIsWords(free - {b.Buddy()}, b.Parent(), limit);
    }
  }
}
