/**
 The LRU index of cached blocks: a map from block offset to its data and age, and the set of
 (age, block) pairs in which the least pair is the next to evict.
 */
module BlockCaches {
  import opened Common

  const BLOCK_SIZE: nat := 4096
  const CACHE_LIMIT: nat := 32 * 1024
  const U64_LIMIT: nat := 0x1_0000_0000_0000_0000
  const USIZE_LIMIT: nat := 0x1_0000_0000_0000_0000

  datatype Entry = Entry(data: seq<Byte>, lastUsed: nat)

  /** `ages` is exactly the set of (last_used, block) pairs of `blocks`. */
  ghost predicate Indexed(blocks: map<nat, Entry>, ages: set<(nat, nat)>) {
    && (forall b :: b in blocks ==> (blocks[b].lastUsed, b) in ages)
    && (forall p :: p in ages ==> p.1 in blocks && blocks[p.1].lastUsed == p.0)
  }

  ghost predicate ListingGuard(g: Guard, keys: set<nat>, order: seq<nat>) { g == Key }

  /** The list names every key once. */
  ghost predicate Listing(keys: set<nat>, order: seq<nat>) {
    forall g :: ListingGuard(g, keys, order) ==>
      && (forall b :: b in order <==> b in keys)
      && (forall i, j :: 0 <= i < j < |order| ==> order[i] != order[j])
  }

  ghost predicate RecencyGuard(g: Guard, blocks: map<nat, Entry>, order: seq<nat>) { g == Key }

  /** The ages grow along the list. */
  ghost predicate Recency(blocks: map<nat, Entry>, order: seq<nat>, nextAge: nat) {
    forall g :: RecencyGuard(g, blocks, order) ==>
      && (forall b :: b in blocks ==> blocks[b].lastUsed < nextAge)
      && (forall i :: 0 <= i < |order| ==> order[i] in blocks)
      && (forall i, j :: 0 <= i < j < |order| ==> blocks[order[i]].lastUsed < blocks[order[j]].lastUsed)
  }

  predicate PairLess(p: (nat, nat), q: (nat, nat)) {
    p.0 < q.0 || (p.0 == q.0 && p.1 <= q.1)
  }

  /** The first pair of the ordered set. */
  function LeastPair(s: set<(nat, nat)>): (m: (nat, nat))
    requires s != {}
    ensures m in s && forall p :: p in s ==> PairLess(m, p)
  {
    LeastPairExists(s);
    var m :| m in s && forall p :: p in s ==> PairLess(m, p);
    m
  }

  lemma {:induction false} LeastPairExists(s: set<(nat, nat)>)
    requires s != {}
    ensures exists m :: m in s && forall p :: p in s ==> PairLess(m, p)
    decreases s
  {
    var a :| a in s;
    var rest := s - {a};
    assert s == {a} + rest;
    if rest != {} {
      LeastPairExists(rest);
      var m :| m in rest && forall p :: p in rest ==> PairLess(m, p);
      var l := if PairLess(a, m) then a else m;
      assert l in s && forall p :: p in s ==> PairLess(l, p);
    }
  }

  ghost function Without(order: seq<nat>, b: nat): seq<nat> {
    if order == [] then []
    else if order[0] == b then Without(order[1..], b)
    else [order[0]] + Without(order[1..], b)
  }

  /** The plain LRU list: a use moves the block to the end. */
  ghost function Touched(order: seq<nat>, b: nat): seq<nat> {
    Without(order, b) + [b]
  }

  /** The plain LRU list: an insertion drops the first block of a full list. */
  ghost function Inserted(order: seq<nat>, b: nat): seq<nat> {
    if b in order then Touched(order, b)
    else (if |order| >= CACHE_LIMIT then order[1..] else order) + [b]
  }

  /** The elements of `w` are found in the list at the growing positions `idx`. */
  ghost predicate Picks(idx: seq<nat>, w: seq<nat>, order: seq<nat>) {
    && |idx| == |w|
    && (forall i :: 0 <= i < |idx| ==> idx[i] < |order| && w[i] == order[idx[i]])
    && (forall i, j :: 0 <= i < j < |idx| ==> idx[i] < idx[j])
  }

  lemma PicksCons(idx: seq<nat>, w: seq<nat>, order: seq<nat>)
    requires order != [] && Picks(idx, w, order) && forall i :: 0 <= i < |idx| ==> idx[i] > 0
    ensures Picks([0] + idx, [order[0]] + w, order)
  {
  }

  lemma PicksShift(idx: seq<nat>, w: seq<nat>, order: seq<nat>) returns (shifted: seq<nat>)
    requires order != [] && Picks(idx, w, order[1..])
    ensures Picks(shifted, w, order) && Picks([0] + shifted, [order[0]] + w, order)
  {
    shifted := seq(|idx|, i requires 0 <= i < |idx| => idx[i] + 1);
    var tail, longer := order[1..], [0] + shifted;
    forall i | 0 <= i < |idx|
      ensures shifted[i] == idx[i] + 1 && w[i] == order[shifted[i]] && longer[i + 1] == shifted[i]
    {
      assert w[i] == tail[idx[i]];
    }
    PicksCons(shifted, w, order);
  }

  /** Every element of `Without` comes from the list, and keeps its relative position. */
  lemma {:induction false} WithoutPicks(order: seq<nat>, b: nat) returns (idx: seq<nat>)
    ensures Picks(idx, Without(order, b), order)
    ensures forall x :: x in Without(order, b) <==> x in order && x != b
  {
    WithoutMembers(order, b);
    if order == [] {
      idx := [];
    } else {
      var rest := WithoutPicks(order[1..], b);
      var shifted := PicksShift(rest, Without(order[1..], b), order);
      idx := if order[0] == b then shifted else [0] + shifted;
    }
  }

  lemma {:induction false} WithoutMembers(order: seq<nat>, b: nat)
    ensures forall x :: x in Without(order, b) <==> x in order && x != b
  {
    if order != [] {
      WithoutMembers(order[1..], b);
      assert order == [order[0]] + order[1..];
    }
  }

  ghost function Bumped(age: nat): nat {
    if age + 1 >= U64_LIMIT then 1 else age + 1
  }

  lemma {:induction false} WithoutNone(order: seq<nat>, b: nat)
    requires b !in order
    ensures Without(order, b) == order
  {
    if order != [] {
      WithoutNone(order[1..], b);
    }
  }

  lemma ListingRemove(keys: set<nat>, order: seq<nat>, b: nat)
    requires Listing(keys, order)
    ensures Listing(keys - {b}, Without(order, b))
  {
    assert ListingGuard(Key, keys, order);
    var idx := WithoutPicks(order, b);
    var w := Without(order, b);
    forall i, j | 0 <= i < j < |w|
      ensures w[i] != w[j]
    {
      assert w[i] == order[idx[i]] && w[j] == order[idx[j]] && idx[i] < idx[j];
    }
  }

  lemma ListingAppend(keys: set<nat>, order: seq<nat>, b: nat)
    requires Listing(keys, order) && b !in keys
    ensures Listing(keys + {b}, order + [b])
  {
    assert ListingGuard(Key, keys, order);
  }

  lemma ListingTouch(keys: set<nat>, order: seq<nat>, b: nat)
    requires Listing(keys, order) && b in keys
    ensures Listing(keys, Touched(order, b))
  {
    ListingRemove(keys, order, b);
    ListingAppend(keys - {b}, Without(order, b), b);
    assert keys - {b} + {b} == keys;
  }

  /** The first block of a list without repetitions occurs nowhere else. */
  lemma WithoutFirst(keys: set<nat>, order: seq<nat>)
    requires Listing(keys, order) && order != []
    ensures Without(order, order[0]) == order[1..]
  {
    assert ListingGuard(Key, keys, order);
    WithoutNone(order[1..], order[0]);
  }

  /** A list without repetitions has one entry per block. */
  lemma {:induction false} ListingLength(keys: set<nat>, order: seq<nat>)
    requires Listing(keys, order)
    ensures |order| == |keys|
    decreases |order|
  {
    assert ListingGuard(Key, keys, order);
    if order == [] {
      assert keys == {};
    } else {
      assert order[0] in order;
      ListingRemove(keys, order, order[0]);
      WithoutFirst(keys, order);
      ListingLength(keys - {order[0]}, order[1..]);
    }
  }

  /** Giving a block the current age moves it to the end of the recency order. */
  lemma RecencyTouch(blocks: map<nat, Entry>, order: seq<nat>, nextAge: nat, b: nat, data: seq<Byte>)
    requires Recency(blocks, order, nextAge)
    ensures Recency(blocks[b := Entry(data, nextAge)], Touched(order, b), nextAge + 1)
  {
    assert RecencyGuard(Key, blocks, order);
    var idx := WithoutPicks(order, b);
    var w := Without(order, b);
    var after := Touched(order, b);
    var blocks' := blocks[b := Entry(data, nextAge)];
    forall i | 0 <= i < |w|
      ensures w[i] in blocks' && blocks'[w[i]] == blocks[w[i]]
    {
      assert w[i] in w && w[i] == order[idx[i]];
    }
    forall i, j | 0 <= i < j < |after|
      ensures blocks'[after[i]].lastUsed < blocks'[after[j]].lastUsed
    {
      if j < |w| {
        assert w[i] == order[idx[i]] && w[j] == order[idx[j]];
      }
    }
  }

  lemma RecencyAppend(blocks: map<nat, Entry>, order: seq<nat>, nextAge: nat, b: nat, data: seq<Byte>)
    requires Recency(blocks, order, nextAge) && b !in order
    ensures Recency(blocks[b := Entry(data, nextAge)], order + [b], nextAge + 1)
  {
    assert RecencyGuard(Key, blocks, order);
  }

  lemma RecencyRemove(blocks: map<nat, Entry>, order: seq<nat>, nextAge: nat, b: nat)
    requires Recency(blocks, order, nextAge)
    ensures Recency(blocks - {b}, Without(order, b), nextAge)
  {
    assert RecencyGuard(Key, blocks, order);
    var idx := WithoutPicks(order, b);
    var w := Without(order, b);
    forall i | 0 <= i < |w|
      ensures w[i] in blocks - {b}
    {
      assert w[i] in w && w[i] == order[idx[i]];
    }
    forall i, j | 0 <= i < j < |w|
      ensures blocks[w[i]].lastUsed < blocks[w[j]].lastUsed
    {
      assert w[i] == order[idx[i]] && w[j] == order[idx[j]];
    }
  }

  /** The pair of the block that heads the list is the least one. */
  ghost predicate OldestFirst(blocks: map<nat, Entry>, order: seq<nat>) {
    && order != [] && order[0] in blocks
    && forall b :: b in blocks ==> PairLess((blocks[order[0]].lastUsed, order[0]), (blocks[b].lastUsed, b))
  }

  /** The least pair names the least recently used block exactly when the ages say so, wrapped or not. */
  lemma LeastIsFirstIff(blocks: map<nat, Entry>, ages: set<(nat, nat)>, order: seq<nat>)
    requires Indexed(blocks, ages) && Listing(blocks.Keys, order) && ages != {}
    ensures order != [] && (LeastPair(ages).1 == order[0] <==> OldestFirst(blocks, order))
  {
    assert ListingGuard(Key, blocks.Keys, order);
    var m := LeastPair(ages);
    assert m.1 in order && order[0] in order;
    assert (blocks[order[0]].lastUsed, order[0]) in ages;
  }

  /** Until the counter wraps the ages do say so. */
  lemma LeastIsFirst(blocks: map<nat, Entry>, ages: set<(nat, nat)>, order: seq<nat>, nextAge: nat)
    requires Indexed(blocks, ages) && Listing(blocks.Keys, order) && Recency(blocks, order, nextAge) && ages != {}
    ensures OldestFirst(blocks, order) && LeastPair(ages).1 == order[0]
  {
    LeastIsFirstIff(blocks, ages, order);
    assert ListingGuard(Key, blocks.Keys, order);
    assert RecencyGuard(Key, blocks, order);
    assert order[0] in order;
    forall b | b in blocks
      ensures PairLess((blocks[order[0]].lastUsed, order[0]), (blocks[b].lastUsed, b))
    {
      var i :| 0 <= i < |order| && order[i] == b;
    }
  }

  // ---------------------------------------------------------------- the index as a whole

  ghost predicate IndexGuard(g: Guard, blocks: map<nat, Entry>, ages: set<(nat, nat)>) { g == Key }

  /** The two structures agree, hold `contents`, and until the counter wraps they follow the LRU list. */
  ghost predicate Index(blocks: map<nat, Entry>, ages: set<(nat, nat)>, contents: map<nat, seq<Byte>>,
                        order: seq<nat>, nextAge: nat, wrapped: bool)
  {
    && |blocks| <= CACHE_LIMIT
    && Holds(blocks, ages, contents)
    && Lists(blocks, order)
    && (!wrapped ==> Recency(blocks, order, nextAge))
  }

  ghost predicate ListsGuard(g: Guard, blocks: map<nat, Entry>, order: seq<nat>) { g == Key }

  ghost predicate Lists(blocks: map<nat, Entry>, order: seq<nat>) {
    forall g :: ListsGuard(g, blocks, order) ==> Listing(blocks.Keys, order)
  }

  ghost predicate Holds(blocks: map<nat, Entry>, ages: set<(nat, nat)>, contents: map<nat, seq<Byte>>) {
    forall g :: IndexGuard(g, blocks, ages) ==>
      Indexed(blocks, ages) && contents.Keys == blocks.Keys && forall b :: b in blocks ==> blocks[b].data == contents[b]
  }

  lemma HoldsRefresh(blocks: map<nat, Entry>, ages: set<(nat, nat)>, contents: map<nat, seq<Byte>>,
                     b: nat, data: seq<Byte>, age: nat)
    requires Holds(blocks, ages, contents) && b in blocks
    ensures Holds(blocks[b := Entry(data, age)], ages - {(blocks[b].lastUsed, b)} + {(age, b)}, contents[b := data])
    ensures |blocks[b := Entry(data, age)]| == |blocks|
  {
    assert IndexGuard(Key, blocks, ages);
    assert blocks[b := Entry(data, age)].Keys == blocks.Keys;
  }

  lemma HoldsAdd(blocks: map<nat, Entry>, ages: set<(nat, nat)>, contents: map<nat, seq<Byte>>,
                 b: nat, data: seq<Byte>, age: nat)
    requires Holds(blocks, ages, contents) && b !in blocks
    ensures Holds(blocks[b := Entry(data, age)], ages + {(age, b)}, contents[b := data])
    ensures |blocks[b := Entry(data, age)]| == |blocks| + 1
  {
    assert IndexGuard(Key, blocks, ages);
    assert blocks[b := Entry(data, age)].Keys == blocks.Keys + {b};
  }

  lemma HoldsRemove(blocks: map<nat, Entry>, ages: set<(nat, nat)>, contents: map<nat, seq<Byte>>, b: nat)
    requires Holds(blocks, ages, contents) && b in blocks
    ensures Holds(blocks - {b}, ages - {(blocks[b].lastUsed, b)}, contents - {b})
    ensures |blocks - {b}| == |blocks| - 1
  {
    assert IndexGuard(Key, blocks, ages);
    assert (blocks - {b}).Keys == blocks.Keys - {b};
  }

  lemma IndexLookup(blocks: map<nat, Entry>, ages: set<(nat, nat)>, contents: map<nat, seq<Byte>>,
                    order: seq<nat>, nextAge: nat, wrapped: bool, b: nat)
    requires Index(blocks, ages, contents, order, nextAge, wrapped)
    ensures b in blocks <==> b in contents
    ensures b in blocks ==> blocks[b].data == contents[b]
    ensures blocks.Keys == contents.Keys
    ensures (b in order <==> b in blocks) && |order| == |blocks|
  {
    assert IndexGuard(Key, blocks, ages);
    assert ListsGuard(Key, blocks, order);
    assert ListingGuard(Key, blocks.Keys, order);
    ListingLength(blocks.Keys, order);
  }

  lemma IndexWrap(blocks: map<nat, Entry>, ages: set<(nat, nat)>, contents: map<nat, seq<Byte>>,
                  order: seq<nat>, nextAge: nat, wrapped: bool)
    requires Index(blocks, ages, contents, order, nextAge, wrapped)
    ensures forall age: nat :: Index(blocks, ages, contents, order, age, true)
    ensures Index(blocks, ages, contents, order, nextAge + 1, wrapped)
  {
    assert RecencyGuard(Key, blocks, order);
  }

  lemma IndexRefresh(blocks: map<nat, Entry>, ages: set<(nat, nat)>, contents: map<nat, seq<Byte>>,
                     order: seq<nat>, age: nat, wrapped: bool, b: nat, data: seq<Byte>)
    requires Index(blocks, ages, contents, order, age, wrapped) && b in blocks
    ensures Index(blocks[b := Entry(data, age)], ages - {(blocks[b].lastUsed, b)} + {(age, b)}, contents[b := data],
                  Touched(order, b), age + 1, wrapped)
  {
    HoldsRefresh(blocks, ages, contents, b, data, age);
    assert ListsGuard(Key, blocks, order);
    ListingTouch(blocks.Keys, order, b);
    assert blocks[b := Entry(data, age)].Keys == blocks.Keys;
    if !wrapped {
      RecencyTouch(blocks, order, age, b, data);
    }
  }

  lemma IndexAdd(blocks: map<nat, Entry>, ages: set<(nat, nat)>, contents: map<nat, seq<Byte>>,
                 order: seq<nat>, age: nat, wrapped: bool, b: nat, data: seq<Byte>)
    requires Index(blocks, ages, contents, order, age, wrapped) && b !in blocks && |blocks| < CACHE_LIMIT
    ensures Index(blocks[b := Entry(data, age)], ages + {(age, b)}, contents[b := data], order + [b], age + 1, wrapped)
  {
    HoldsAdd(blocks, ages, contents, b, data, age);
    assert ListsGuard(Key, blocks, order);
    ListingAppend(blocks.Keys, order, b);
    assert blocks[b := Entry(data, age)].Keys == blocks.Keys + {b};
    if !wrapped {
      assert ListingGuard(Key, blocks.Keys, order);
      RecencyAppend(blocks, order, age, b, data);
    }
  }

  lemma IndexEvict(blocks: map<nat, Entry>, ages: set<(nat, nat)>, contents: map<nat, seq<Byte>>,
                   order: seq<nat>, age: nat, wrapped: bool)
    requires Index(blocks, ages, contents, order, age, wrapped) && |blocks| >= CACHE_LIMIT
    ensures ages != {} && order != []
    ensures LeastPair(ages).1 in blocks && LeastPair(ages).0 == blocks[LeastPair(ages).1].lastUsed
    ensures |blocks - {LeastPair(ages).1}| == |blocks| - 1
    ensures LeastPair(ages).1 == order[0] <==> OldestFirst(blocks, order)
    ensures !wrapped ==> OldestFirst(blocks, order)
    ensures OldestFirst(blocks, order) ==> Without(order, LeastPair(ages).1) == order[1..]
    ensures Index(blocks - {LeastPair(ages).1}, ages - {LeastPair(ages)}, contents - {LeastPair(ages).1},
                  Without(order, LeastPair(ages).1), age, wrapped)
  {
    assert IndexGuard(Key, blocks, ages);
    assert |blocks.Keys| > 0;
    var b0 :| b0 in blocks;
    assert (blocks[b0].lastUsed, b0) in ages;
    assert ListsGuard(Key, blocks, order);
    LeastIsFirstIff(blocks, ages, order);
    WithoutFirst(blocks.Keys, order);
    if !wrapped {
      LeastIsFirst(blocks, ages, order, age);
    }
    HoldsRemove(blocks, ages, contents, LeastPair(ages).1);
    IndexRemove(blocks, ages, contents, order, age, wrapped, LeastPair(ages).1);
  }

  lemma IndexRemove(blocks: map<nat, Entry>, ages: set<(nat, nat)>, contents: map<nat, seq<Byte>>,
                    order: seq<nat>, age: nat, wrapped: bool, b: nat)
    requires Index(blocks, ages, contents, order, age, wrapped) && b in blocks
    ensures Index(blocks - {b}, ages - {(blocks[b].lastUsed, b)}, contents - {b}, Without(order, b), age, wrapped)
  {
    HoldsRemove(blocks, ages, contents, b);
    assert ListsGuard(Key, blocks, order);
    ListingRemove(blocks.Keys, order, b);
    assert (blocks - {b}).Keys == blocks.Keys - {b};
    if !wrapped {
      RecencyRemove(blocks, order, age, b);
    }
  }

  class BlockCache {
    var blocks: map<nat, Entry>
    var ages: set<(nat, nat)>
    var nextAge: nat
    /** The data of the cached blocks. */
    ghost var contents: map<nat, seq<Byte>>
    /** The blocks from the least to the most recently used. */
    ghost var order: seq<nat>
    ghost var wrapped: bool

    ghost predicate Valid()
      reads this
    {
      && 1 <= nextAge < U64_LIMIT
      && Index(blocks, ages, contents, order, nextAge, wrapped)
    }

    constructor ()
      ensures Valid() && contents == map[] && order == [] && !wrapped && nextAge == 1
    {
      blocks, ages, nextAge := map[], {}, 1;
      contents, order, wrapped := map[], [], false;
    }

    /** The age counter wraps to 1, because 0 is skipped. */
    method BumpAge() returns (age: nat)
      requires Valid()
      modifies this`nextAge, this`wrapped
      ensures age == old(nextAge) && nextAge == if age + 1 == U64_LIMIT then 1 else age + 1
      ensures wrapped == (old(wrapped) || nextAge == 1)
      ensures Valid() && Index(blocks, ages, contents, order, age, wrapped)
    {
      IndexWrap(blocks, ages, contents, order, nextAge, wrapped);
      age := nextAge;
      nextAge := Max(if nextAge + 1 == U64_LIMIT then 0 else nextAge + 1, 1);
      wrapped := wrapped || nextAge == 1;
    }

    /** A hit returns the data and counts as a use; a miss changes only the counter. */
    method Get(block: nat) returns (r: Option<seq<Byte>>)
      requires Valid()
      modifies this
      ensures Valid() && contents == old(contents)
      ensures r == if block in contents then Some(contents[block]) else None
      ensures nextAge == if old(nextAge) + 1 == U64_LIMIT then 1 else old(nextAge) + 1
      ensures wrapped == (old(wrapped) || nextAge == 1)
      ensures block in old(blocks) <==> block in contents
      ensures block in contents ==> && order == Touched(old(order), block)
                                    && blocks == old(blocks)[block := Entry(contents[block], old(nextAge))]
      ensures block !in contents ==> order == old(order) && blocks == old(blocks)
    {
      var age := BumpAge();
      IndexLookup(blocks, ages, contents, order, age, wrapped, block);
      if block !in blocks {
        return None;
      }
      var data := blocks[block].data;
      Refresh(block, data, age);
      assert old(contents)[block := data] == old(contents);
      r := Some(data);
    }

    /** Gives a cached block new data and the current age. */
    method Refresh(block: nat, data: seq<Byte>, age: nat)
      requires Index(blocks, ages, contents, order, age, wrapped) && block in blocks
      requires nextAge == Bumped(age) && 1 <= nextAge < U64_LIMIT && (nextAge == 1 ==> wrapped)
      modifies this`blocks, this`ages, this`contents, this`order
      ensures Valid() && contents == old(contents)[block := data] && order == Touched(old(order), block)
      ensures blocks == old(blocks)[block := Entry(data, age)]
    {
      IndexRefresh(blocks, ages, contents, order, age, wrapped, block, data);
      ages := ages - {(blocks[block].lastUsed, block)};
      blocks := blocks[block := Entry(data, age)];
      ages := ages + {(age, block)};
      contents, order := contents[block := data], Touched(order, block);
      IndexWrap(blocks, ages, contents, order, age + 1, wrapped);
    }

    /** Overwrites a cached block, or adds one and evicts the least recently used of a full cache. */
    method Insert(block: nat, data: seq<Byte>) returns (ghost evicted: set<nat>)
      requires Valid()
      modifies this
      ensures Valid()
      ensures block !in evicted && evicted <= old(contents).Keys && |evicted| <= 1
      ensures contents == (old(contents) - evicted)[block := data]
      ensures evicted == {} <==> block in old(contents) || |old(contents)| < CACHE_LIMIT
      ensures evicted != {} ==> && old(ages) != {} && evicted == {LeastPair(old(ages)).1} && old(order) != []
                                && (evicted == {old(order)[0]} <==> OldestFirst(old(blocks), old(order)))
      ensures blocks == (old(blocks) - evicted)[block := Entry(data, old(nextAge))]
      ensures nextAge == if old(nextAge) + 1 == U64_LIMIT then 1 else old(nextAge) + 1
      ensures wrapped == (old(wrapped) || nextAge == 1)
      ensures order == if block in old(contents) then Touched(old(order), block)
                       else (if evicted == {} then old(order)
                           else Without(old(order), LeastPair(old(ages)).1)) + [block]
      ensures !wrapped ==> order == Inserted(old(order), block)
      ensures !wrapped && evicted != {} ==> evicted == {old(order)[0]}
    {
      evicted := {};
      var age := BumpAge();
      IndexLookup(blocks, ages, contents, order, age, wrapped, block);
      assert |contents| == |contents.Keys| && |blocks| == |blocks.Keys|;
      assert contents - {} == contents;
      if block in blocks {
        Refresh(block, data, age);
        return;
      }
      evicted := AddEvicting(block, data, age);
    }

    /** Adds a block that is not cached, after the eviction that a full cache needs. */
    method AddEvicting(block: nat, data: seq<Byte>, age: nat) returns (ghost evicted: set<nat>)
      requires Index(blocks, ages, contents, order, age, wrapped) && block !in blocks && block !in contents
      requires nextAge == Bumped(age) && 1 <= nextAge < U64_LIMIT && (nextAge == 1 ==> wrapped)
      requires |contents| == |blocks| && contents.Keys == blocks.Keys
      modifies this`blocks, this`ages, this`contents, this`order
      ensures Valid()
      ensures block !in evicted && evicted <= old(contents).Keys && |evicted| <= 1
      ensures contents == (old(contents) - evicted)[block := data]
      ensures blocks == (old(blocks) - evicted)[block := Entry(data, age)]
      ensures evicted == {} <==> |old(contents)| < CACHE_LIMIT
      ensures evicted != {} ==> && old(ages) != {} && evicted == {LeastPair(old(ages)).1} && old(order) != []
                                && (evicted == {old(order)[0]} <==> OldestFirst(old(blocks), old(order)))
      ensures order == (if evicted == {} then old(order) else Without(old(order), LeastPair(old(ages)).1)) + [block]
      ensures !wrapped && evicted != {} ==>
                evicted == {old(order)[0]} && Without(old(order), LeastPair(old(ages)).1) == old(order)[1..]
    {
      evicted := {};
      assert contents - {} == contents && blocks - {} == blocks;
      if |blocks| >= CACHE_LIMIT {
        evicted := EvictOldest(age);
      }
      AddNew(block, data, age);
    }

    /** The eviction of a full cache. */
    method EvictOldest(ghost age: nat) returns (ghost evicted: set<nat>)
      requires Index(blocks, ages, contents, order, age, wrapped) && |blocks| >= CACHE_LIMIT
      modifies this`blocks, this`ages, this`contents, this`order
      ensures Index(blocks, ages, contents, order, age, wrapped) && |blocks| < CACHE_LIMIT
      ensures old(ages) != {} && evicted == {LeastPair(old(ages)).1} && evicted <= old(blocks).Keys
      ensures blocks == old(blocks) - evicted && contents == old(contents) - evicted
      ensures order == Without(old(order), LeastPair(old(ages)).1)
      ensures old(order) != [] && (evicted == {old(order)[0]} <==> OldestFirst(old(blocks), old(order)))
      ensures !wrapped ==> evicted == {old(order)[0]} && order == old(order)[1..]
    {
      IndexEvict(blocks, ages, contents, order, age, wrapped);
      var oldest := LeastPair(ages);
      evicted := {oldest.1};
      ages := ages - {oldest};
      blocks := blocks - {oldest.1};
      contents, order := contents - evicted, Without(order, oldest.1);
    }

    /** Adds a block that is not cached. */
    method AddNew(block: nat, data: seq<Byte>, age: nat)
      requires Index(blocks, ages, contents, order, age, wrapped) && block !in blocks && |blocks| < CACHE_LIMIT
      requires nextAge == Bumped(age) && 1 <= nextAge < U64_LIMIT && (nextAge == 1 ==> wrapped)
      modifies this`blocks, this`ages, this`contents, this`order
      ensures Valid() && contents == old(contents)[block := data] && order == old(order) + [block]
      ensures blocks == old(blocks)[block := Entry(data, age)]
    {
      IndexLookup(blocks, ages, contents, order, age, wrapped, block);
      IndexAdd(blocks, ages, contents, order, age, wrapped, block, data);
      blocks := blocks[block := Entry(data, age)];
      ages := ages + {(age, block)};
      contents, order := contents[block := data], order + [block];
      IndexWrap(blocks, ages, contents, order, age + 1, wrapped);
    }

    /** Removes one block if it is cached. */
    method Remove(block: nat)
      requires Valid()
      modifies this`blocks, this`ages, this`contents, this`order
      ensures Valid() && contents == old(contents) - {block} && blocks == old(blocks) - {block}
    {
      IndexLookup(blocks, ages, contents, order, nextAge, wrapped, block);
      if block in blocks {
        IndexRemove(blocks, ages, contents, order, nextAge, wrapped, block);
        ages := ages - {(blocks[block].lastUsed, block)};
        blocks := blocks - {block};
        contents, order := contents - {block}, Without(order, block);
      } else {
        assert contents - {block} == contents && blocks - {block} == blocks;
      }
    }

    /** Removes exactly the aligned blocks that overlap the range; a range past the end of `usize` clears the cache. */
    method InvalidateRange(start: nat, len: nat)
      requires Valid() && start < USIZE_LIMIT && len < USIZE_LIMIT
      modifies this`blocks, this`ages, this`contents, this`order
      ensures Valid() && contents == Invalidated(old(contents), start, len)
                && blocks == Invalidated(old(blocks), start, len)
      ensures start + len >= USIZE_LIMIT ==> contents == map[]
      ensures start + len < USIZE_LIMIT ==>
                forall b :: b in contents <==>
                  b in old(contents) && (len == 0 || b % BLOCK_SIZE != 0 || start + len <= b || b + BLOCK_SIZE <= start)
      ensures forall b :: b in contents ==> b in old(contents) && contents[b] == old(contents)[b]
    {
      if start + len >= USIZE_LIMIT {
        blocks, ages, contents, order := map[], {}, map[], [];
        return;
      }
      var end := start + len;
      if start >= end {
        assert contents == Invalidated(contents, start, len) && blocks == Invalidated(blocks, start, len);
        return;
      }
      var first := start / BLOCK_SIZE * BLOCK_SIZE;
      var last := (end - 1) / BLOCK_SIZE * BLOCK_SIZE;
      InvalidatedIsKept(contents, start, len, first, last);
      InvalidatedIsKept(blocks, start, len, first, last);
      RemoveBlocks(first, last);
    }

    /** The loop over the aligned blocks from `first` to `last`. */
    method RemoveBlocks(first: nat, last: nat)
      requires Valid() && first <= last < USIZE_LIMIT && first % BLOCK_SIZE == 0 && last % BLOCK_SIZE == 0
      modifies this`blocks, this`ages, this`contents, this`order
      ensures Valid() && contents == Kept(old(contents), first, last + BLOCK_SIZE)
      ensures blocks == Kept(old(blocks), first, last + BLOCK_SIZE)
    {
      ghost var steps := (last - first) / BLOCK_SIZE;
      BlocksApart(first, last);
      var block := first;
      ghost var removed: set<nat>, n: nat := {}, 0;
      RemoveNothing(contents);
      RemoveNothing(blocks);
      IsEmptyRun(first);
      while true
        invariant Valid()
        invariant n <= steps && block == first + n * BLOCK_SIZE
        invariant contents == old(contents) - removed && blocks == old(blocks) - removed
        invariant IsRun(removed, first, block)
        decreases steps - n
      {
        RunGrows(removed, first, n);
        RemoveAlso(block, old(contents), old(blocks), removed);
        removed := removed + {block};
        if block == last {
          break;
        }
        block := SaturatingAdd(block, BLOCK_SIZE);
        n := n + 1;
      }
      RunIsKept(old(contents), removed, first, last + BLOCK_SIZE);
      RunIsKept(old(blocks), removed, first, last + BLOCK_SIZE);
    }

    method RemoveAlso(block: nat, ghost contents0: map<nat, seq<Byte>>, ghost blocks0: map<nat, Entry>,
                      ghost removed: set<nat>)
      requires Valid() && contents == contents0 - removed && blocks == blocks0 - removed
      modifies this`blocks, this`ages, this`contents, this`order
      ensures Valid() && contents == contents0 - (removed + {block}) && blocks == blocks0 - (removed + {block})
    {
      RemoveMore(contents0, removed, block);
      RemoveMore(blocks0, removed, block);
      Remove(block);
    }
  }

  ghost predicate RunGuard(g: Guard, run: set<nat>) { g == Key }

  /** The aligned offsets from `first` up to `upto`. */
  ghost predicate IsRun(run: set<nat>, first: nat, upto: nat) {
    forall g :: RunGuard(g, run) ==> forall b :: b in run <==> b % BLOCK_SIZE == 0 && first <= b < upto
  }

  lemma RunGrows(run: set<nat>, first: nat, n: nat)
    requires IsRun(run, first, first + n * BLOCK_SIZE) && first % BLOCK_SIZE == 0
    ensures IsRun(run + {first + n * BLOCK_SIZE}, first, first + n * BLOCK_SIZE + BLOCK_SIZE)
  {
    assert RunGuard(Key, run);
  }

  lemma IsEmptyRun(first: nat)
    ensures IsRun({}, first, first)
  {
  }

  lemma RemoveNothing<T>(contents: map<nat, T>)
    ensures contents - {} == contents
  {
  }

  lemma RemoveMore<T>(contents: map<nat, T>, removed: set<nat>, block: nat)
    ensures contents - removed - {block} == contents - (removed + {block})
  {
  }

  lemma RunIsKept<T>(contents: map<nat, T>, run: set<nat>, first: nat, upto: nat)
    requires IsRun(run, first, upto)
    ensures contents - run == Kept(contents, first, upto)
  {
    assert RunGuard(Key, run);
  }

  lemma BlocksApart(first: nat, last: nat)
    requires first % BLOCK_SIZE == 0 && last % BLOCK_SIZE == 0 && first <= last
    ensures last == first + (last - first) / BLOCK_SIZE * BLOCK_SIZE
  {
  }

  /** An aligned block that overlaps [start, end). */
  predicate Hit(b: nat, start: nat, end: nat) {
    start < end && b % BLOCK_SIZE == 0 && b < end && start < b + BLOCK_SIZE
  }

  /** What an invalidation leaves of the cache. */
  ghost function Invalidated<T>(contents: map<nat, T>, start: nat, len: nat): map<nat, T> {
    if start + len >= USIZE_LIMIT then map[]
    else map b | b in contents && !Hit(b, start, start + len) :: contents[b]
  }

  /** The blocks outside the aligned blocks from `first` up to `upto`. */
  ghost function Kept<T>(contents: map<nat, T>, first: nat, upto: nat): map<nat, T> {
    map b | b in contents && !(b % BLOCK_SIZE == 0 && first <= b < upto) :: contents[b]
  }

  lemma InvalidatedIsKept<T>(contents: map<nat, T>, start: nat, len: nat, first: nat, last: nat)
    requires len > 0 && start + len < USIZE_LIMIT
    requires first == start / BLOCK_SIZE * BLOCK_SIZE && last == (start + len - 1) / BLOCK_SIZE * BLOCK_SIZE
    ensures Invalidated(contents, start, len) == Kept(contents, first, last + BLOCK_SIZE)
  {
    forall b: nat
      ensures Hit(b, start, start + len) <==> b % BLOCK_SIZE == 0 && first <= b < last + BLOCK_SIZE
    {
    }
  }

  function SaturatingAdd(a: nat, b: nat): nat {
    Min(a + b, USIZE_LIMIT - 1)
  }

  /**
   Every full cache whose counter is about to wrap evicts the block it used last, unless a pair of age 1 is left that
   comes before it: two uses of `c` give it the largest age and then the age 1, and the next insertion drops `c`, which
   ends the recency list, and not its head.
   */
  method EvictsTheBlockUsedLast(cache: BlockCache, c: nat, other: nat, data: seq<Byte>)
    returns (ghost before: seq<nat>, ghost evicted: set<nat>)
    requires cache.Valid() && cache.nextAge == U64_LIMIT - 1 && |cache.contents| >= CACHE_LIMIT
    requires c in cache.contents && other !in cache.contents
    requires forall b :: b in cache.blocks && b != c ==> PairLess((1, c), (cache.blocks[b].lastUsed, b))
    modifies cache
    ensures cache.Valid() && before == Touched(Touched(old(cache.order), c), c)
    ensures before[|before| - 1] == c && evicted == {c} && c !in cache.contents && other in cache.contents
  {
    var _ := cache.Get(c);
    assert cache.nextAge == 1;
    var _ := cache.Get(c);
    before := cache.order;
    assert cache.blocks[c].lastUsed == 1;
    LeastIs(cache.blocks, cache.ages, cache.contents, c);
    evicted := cache.Insert(other, data);
  }

  /** The pair that is below all others is the least one. */
  lemma LeastIs(blocks: map<nat, Entry>, ages: set<(nat, nat)>, contents: map<nat, seq<Byte>>, c: nat)
    requires Holds(blocks, ages, contents) && c in blocks
    requires forall b :: b in blocks && b != c ==> PairLess((blocks[c].lastUsed, c), (blocks[b].lastUsed, b))
    ensures ages != {} && LeastPair(ages).1 == c
  {
    assert IndexGuard(Key, blocks, ages);
    assert (blocks[c].lastUsed, c) in ages;
  }
}
