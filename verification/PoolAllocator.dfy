/**
 The pool allocator in its imperative form: global tables and an array of links, changed in place.
 */
module PoolAllocator {
  import opened Lists
  import opened Bitmap
  import opened Pool
  import Arith

  datatype Status = Success | Invalid | NotPermitted

  datatype Creation = NoPool | Panic | NewPool(p: nat)

  lemma NextOfFront(next: seq<nat>, prev: seq<nat>, head: nat, s: seq<nat>)
    requires IsList(next, prev, head, s) && s != []
    ensures s[0] < |next| && next[s[0]] == if |s| == 1 then head else s[1]
  {
    var r := [head] + s;
    assert r[1] == s[0];
    if |s| > 1 { assert r[2] == s[1]; }
  }

  /** What taking the front of the free list of pool `p` relies on. */
  ghost predicate FrontReady(w: World, p: nat)
    requires Sized(w) && p < MAX_POOLS && w.free[p] != []
  {
    var d, s := w.pools[p], Shift(w.free[p], w.pools[p].chunkBase);
    && d.base > 0 && d.alloc == s[0] < MAX_ITEMS && w.chunks[d.alloc].index == w.free[p][0]
    && d.chunkBase + d.capacity <= MAX_ITEMS && (forall k | 0 <= k < |s| :: InPool(d, s[k]))
    && IsList(w.next, w.prev, HeadNode(p), s)
  }

  lemma FrontIsReady(w: World, p: nat)
    requires Sized(w) && p < MAX_POOLS && w.free[p] != [] && PoolOk(w, p)
    ensures FrontReady(w, p)
  {
    var d := w.pools[p];
    assert InPool(d, d.alloc) && ChunkOk(w.chunks[d.alloc], d, w.free[p], d.alloc - d.chunkBase);
  }

  /** The address lies in the memory of the pool. */
  predicate InMemory(d: PoolDesc, item: nat) {
    d.base <= item <= d.base + d.itemSize * d.capacity - 1
  }

  /** The number of the item that holds address `item`. */
  function ItemIndex(d: PoolDesc, item: nat): (i: nat)
    requires InMemory(d, item)
    ensures i < d.capacity && ItemAddress(d, i) <= item < ItemAddress(d, i) + d.itemSize
  {
    var off: nat := item - d.base;
    assert d.itemSize > 0;
    var i := off / d.itemSize;
    DivBounds(off, d.itemSize, d.capacity);
    i
  }

  /** Items lie one after the other from the base of the pool. */
  lemma ItemsAdjoin(d: PoolDesc, i: nat)
    ensures ItemAddress(d, 0) == d.base && ItemAddress(d, i + 1) == ItemAddress(d, i) + d.itemSize
  {
    assert d.itemSize * (i + 1) == d.itemSize * i + d.itemSize;
  }

  /** Every address of every item is in memory and leads back to that item. */
  lemma ItemInMemory(d: PoolDesc, i: nat, a: nat)
    requires i < d.capacity && ItemAddress(d, i) <= a < ItemAddress(d, i) + d.itemSize
    ensures InMemory(d, a) && ItemIndex(d, a) == i
  {
    Arith.MulLe(i + 1, d.capacity, d.itemSize);
    assert d.itemSize * (i + 1) == d.itemSize * i + d.itemSize;
    Arith.DivUnique(a - d.base, d.itemSize, i, a - ItemAddress(d, i));
  }

  /** And no other address is. */
  lemma OnlyItemsInMemory(d: PoolDesc, a: nat)
    ensures InMemory(d, a) <==> d.base <= a < d.base + d.itemSize * d.capacity
    ensures InMemory(d, a) ==> var i := ItemIndex(d, a); i < d.capacity && ItemAddress(d, i) <= a < ItemAddress(d, i) + d.itemSize
  {
  }

  lemma DivBounds(off: nat, size: nat, n: nat)
    requires size > 0 && off < size * n
    ensures off / size < n && size * (off / size) <= off < size * (off / size) + size
  {
    if off / size >= n { Arith.MulLe(n, off / size, size); }
  }

  /** Taking the front item makes it live, and it was not live before. */
  lemma TookLive(w: World, w': World, p: nat)
    requires Sized(w) && Sized(w') && p < MAX_POOLS && PoolOk(w, p) && w.free[p] != [] && Took(w, w', p)
    ensures w.free[p][0] !in Live(w, p) && Live(w', p) == Live(w, p) + {w.free[p][0]}
  {
    var f := w.free[p];
    forall k: nat ensures k in f[1..] <==> k in f && k != f[0] { RestOf(f, k); }
    assert f[0] in f;
  }

  lemma ReturnedLive(w: World, w': World, p: nat, i: nat)
    requires Sized(w) && Sized(w') && p < MAX_POOLS && i < w.pools[p].capacity && i !in w.free[p] && Returned(w, w', p, i)
    ensures i in Live(w, p) && Live(w', p) == Live(w, p) - {i}
  {
    var f := w.free[p];
    forall k: nat ensures k in [i] + f <==> k == i || k in f { WithFront(f, i, k); }
  }

  lemma ShiftNotIn(f: seq<nat>, i: nat, k: nat)
    requires i !in f
    ensures k + i !in Shift(f, k)
  {
  }

  lemma NewPick(mask: seq<bool>, i: nat)
    requires i < CountBits(mask)
    ensures Pick(mask, i) < |mask| && Pick(mask, i) !in Picks(mask, i)
  {
    PickFound(mask, i);
    forall k | 0 <= k < i ensures Pick(mask, k) < Pick(mask, i) { PickSpread(mask, k, i); }
  }

  lemma MorePicks(mask: seq<bool>, i: nat)
    ensures Picks(mask, i + 1) == Picks(mask, i) + [Pick(mask, i)]
  {
  }

  /** The pool table after `n` scans: the first one sets the chunk pointers. */
  function FirstChunk(pools: seq<PoolDesc>, mask: seq<bool>, p: nat, n: nat): seq<PoolDesc>
    requires p < |pools|
  {
    if n == 0 then pools else pools[p := pools[p].(chunkBase := Pick(mask, 0), alloc := Pick(mask, 0))]
  }

  /** `w'` is `w` after `n` rounds of the loop that builds the free list of pool `p`. */
  ghost predicate Filled(w: World, w': World, p: nat, n: nat)
    requires Sized(w) && Sized(w') && p < MAX_POOLS
  {
    && w'.poolFree == w.poolFree && w'.free == w.free && w'.pools == FirstChunk(w.pools, w.chunkFree, p, n)
    && w'.chunkFree == MaskAfter(w.chunkFree, n) && w'.chunks == Stamped(w.chunks, w.chunkFree, p, n)
    && IsList(w'.next, w'.prev, HeadNode(p), Picks(w.chunkFree, n))
    && LinksOutside(w.next, w.prev, w'.next, w'.prev, [HeadNode(p)] + Picks(w.chunkFree, n))
  }

  lemma LinksStep(next: seq<nat>, prev: seq<nat>, next': seq<nat>, prev': seq<nat>, next'': seq<nat>, prev'': seq<nat>, r: seq<nat>, t: seq<nat>)
    requires LinksOutside(next, prev, next', prev', r) && LinksOutside(next', prev', next'', prev'', t)
    requires forall k | 0 <= k < |r| :: r[k] in t
    ensures LinksOutside(next, prev, next'', prev'', t)
  {
  }

  lemma FilledStep(w: World, w1: World, p: nat, i: nat, next': seq<nat>, prev': seq<nat>)
    requires Sized(w) && Sized(w1) && p < MAX_POOLS && Filled(w, w1, p, i) && Pick(w.chunkFree, i) < MAX_ITEMS
    requires |next'| == |prev'| == NODES && IsList(next', prev', HeadNode(p), Picks(w.chunkFree, i) + [Pick(w.chunkFree, i)])
    requires LinksOutside(w.next, w.prev, next', prev', [HeadNode(p)] + (Picks(w.chunkFree, i) + [Pick(w.chunkFree, i)]))
    ensures var c := Pick(w.chunkFree, i);
            var w' := World(next', prev', if i == 0 then w1.pools[p := w1.pools[p].(chunkBase := c, alloc := c)] else w1.pools,
                            w1.chunks[c := Chunk(i, p, 0)], w1.poolFree, w1.chunkFree[c := false], w1.free);
            Sized(w') && Filled(w, w', p, i + 1)
  {
    MorePicks(w.chunkFree, i);
  }

  /** The start of an item lies in memory exactly when items have a size; the allocation pointer does
      not matter. */
  lemma StartInMemory(d: PoolDesc, d': PoolDesc, i: nat, item: nat)
    requires i < d.capacity && d' == d.(alloc := d'.alloc) && item == ItemAddress(d, i)
    ensures InMemory(d', item) <==> d.itemSize > 0
    ensures InMemory(d', item) ==> ItemIndex(d', item) == i
  {
    if d.itemSize > 0 { ItemInMemory(d', i, item); }
  }

  lemma FrontBelow(w: World, p: nat)
    requires Inv(w) && p < MAX_POOLS && w.pools[p].valid && w.free[p] != []
    ensures w.free[p][0] < w.pools[p].capacity
  {
    assert SlotOk(w, p);
  }

  /** Taking an item and giving it back leaves the free list as it was. */
  lemma BackAgain(w: World, w1: World, w2: World, p: nat)
    requires Sized(w) && Sized(w1) && Sized(w2) && p < MAX_POOLS && w.free[p] != [] && Took(w, w1, p)
    requires Returned(w1, w2, p, w.free[p][0])
    ensures w2.free[p] == w.free[p] && Live(w2, p) == Live(w, p)
  {
    assert [w.free[p][0]] + w.free[p][1..] == w.free[p];
  }

  class Allocator {
    const next: array<nat>
    const prev: array<nat>
    var pools: seq<PoolDesc>
    var chunks: seq<Chunk>
    var poolFree: seq<bool>
    var chunkFree: seq<bool>
    ghost var free: seq<seq<nat>>

    ghost function View(): World
      reads this, next, prev
    {
      World(next[..], prev[..], pools, chunks, poolFree, chunkFree, free)
    }

    ghost predicate Valid()
      reads this, next, prev
    {
      next != prev && Inv(View())
    }

    /** A pool pointer passes the validity test. */
    predicate IsPool(p: int)
      requires |pools| == MAX_POOLS
      reads this
    {
      0 <= p < MAX_POOLS && pools[p].valid
    }

    constructor ()
      ensures Valid() && |chunkFree| == 256 && forall c | 0 <= c < 256 :: chunkFree[c]
      ensures |poolFree| == 32 && forall p | 0 <= p < 32 :: poolFree[p]
    {
      next, prev := new nat[NODES](_ => 0), new nat[NODES](_ => 0);
      pools := seq(MAX_POOLS, _ => EMPTY_DESC);
      chunks := seq(MAX_ITEMS, _ => Chunk(0, 0, 0));
      poolFree, chunkFree := seq(MAX_POOLS, _ => true), seq(MAX_ITEMS, _ => true);
      free := seq(MAX_POOLS, _ => []);
    }

    /** Hands out the item at the front of the free list; null exactly when the pool is not valid
        or all its items are live. */
    method PoolAlloc(p: int) returns (item: nat)
      requires Valid()
      modifies this, next, prev
      ensures Valid()
      ensures item == 0 <==> !old(IsPool(p)) || |Live(old(View()), p)| == old(pools[p].capacity)
      ensures item == 0 ==> View() == old(View())
      ensures item > 0 ==> old(free[p]) != [] && Took(old(View()), View(), p)
      ensures item > 0 ==>
        var i := old(free[p])[0];
        && item == ItemAddress(old(pools[p]), i)
        && i !in Live(old(View()), p) && Live(View(), p) == Live(old(View()), p) + {i}
    {
      if !IsPool(p) { return 0; }
      LivePlusFree(View(), p);
      assert SlotOk(View(), p) && PoolOk(View(), p);
      var empty := ListEmpty(next, prev, HeadNode(p), Shift(free[p], pools[p].chunkBase));
      if empty { return 0; }
      FrontIsReady(View(), p);
      item := TakeFront(p);
      AllocKeeps(old(View()), View(), p);
      TookLive(old(View()), View(), p);
    }

    /** Puts the item that holds address `item` at the front of the free list. Freeing an item that
        is not live trips the source's assertion. */
    method PoolFree(p: int, item: nat) returns (r: Status)
      requires Valid()
      requires IsPool(p) && InMemory(pools[p], item) ==> ItemIndex(pools[p], item) in Live(View(), p)
      modifies this, next, prev
      ensures Valid()
      ensures r == Invalid <==> !old(IsPool(p)) || item == 0
      ensures r == NotPermitted <==> old(IsPool(p)) && item != 0 && !InMemory(old(pools[p]), item)
      ensures r != Success ==> View() == old(View())
      ensures r == Success ==>
        var i := ItemIndex(old(pools[p]), item);
        Returned(old(View()), View(), p, i) && Live(View(), p) == Live(old(View()), p) - {i}
    {
      if !IsPool(p) || item == 0 { return Invalid; }
      if !InMemory(pools[p], item) { return NotPermitted; }
      var i := ItemIndex(pools[p], item);
      assert SlotOk(View(), p) && PoolOk(View(), p);
      PutFront(p, i);
      FreeKeeps(old(View()), View(), p, i);
      ReturnedLive(old(View()), View(), p, i);
      return Success;
    }

    method PutFront(p: nat, i: nat)
      requires next != prev && Sized(View()) && p < MAX_POOLS && i < pools[p].capacity && i !in free[p]
      requires pools[p].chunkBase + pools[p].capacity <= MAX_ITEMS
      requires forall k | 0 <= k < |free[p]| :: free[p][k] < pools[p].capacity
      requires IsList(next[..], prev[..], HeadNode(p), Shift(free[p], pools[p].chunkBase))
      modifies this, next, prev
      ensures Sized(View()) && Returned(old(View()), View(), p, i)
    {
      ghost var w := View();
      var c := pools[p].chunkBase + i;
      ShiftNotIn(free[p], i, pools[p].chunkBase);
      chunks := chunks[c := chunks[c].(data := 0)];
      LinkFront(p, c, pools[p], Shift(free[p], pools[p].chunkBase));
      ReturnedIs(w, p, next[..], prev[..], i);
      pools := pools[p := pools[p].(alloc := c)];
      free := free[p := [i] + free[p]];
    }

    method LinkFront(p: nat, c: nat, ghost d: PoolDesc, ghost s: seq<nat>)
      requires next != prev && next.Length == prev.Length == NODES && d.chunkBase + d.capacity <= MAX_ITEMS
      requires IsList(next[..], prev[..], HeadNode(p), s) && c !in s && InPool(d, c) && p < MAX_POOLS
      requires forall k | 0 <= k < |s| :: InPool(d, s[k])
      modifies next, prev
      ensures IsList(next[..], prev[..], HeadNode(p), [c] + s)
      ensures LinksKept(old(next[..]), old(prev[..]), next[..], prev[..], p, d)
    {
      ListAddTail(next, prev, HeadNode(p), c, s);
      LinksOfPool(old(next[..]), old(prev[..]), next[..], prev[..], p, d, [HeadNode(p)] + s + [c]);
    }

    /** What is handed out can be given back, unless items have no size: afterwards the same items are
        live as before, and the item is the next to be handed out. */
    method AllocThenFree(p: int) returns (item: nat, r: Status)
      requires Valid()
      modifies this, next, prev
      ensures Valid()
      ensures item > 0 ==> 0 <= p < MAX_POOLS && (r == Success <==> old(pools[p].itemSize) > 0)
      ensures item > 0 && r == Success ==> free[p] == old(free[p]) && Live(View(), p) == Live(old(View()), p)
    {
      item := PoolAlloc(p);
      if item == 0 { return 0, Invalid; }
      ghost var w, w1 := old(View()), View();
      FrontBelow(w, p);
      StartInMemory(old(pools[p]), pools[p], old(free[p])[0], item);
      r := PoolFree(p, item);
      if r == Success { BackAgain(w, w1, View(), p); }
    }

    method TakeFront(p: nat) returns (item: nat)
      requires next != prev && Sized(View()) && p < MAX_POOLS && free[p] != [] && FrontReady(View(), p)
      modifies this, next, prev
      ensures Sized(View()) && Took(old(View()), View(), p) && item > 0
      ensures item == ItemAddress(old(pools[p]), old(free[p])[0])
    {
      ghost var d, s := pools[p], Shift(free[p], pools[p].chunkBase);
      var c := pools[p].alloc;
      pools := pools[p := pools[p].(alloc := next[c])];
      UnlinkFront(p, c, d, s);
      item := ItemAddress(pools[p], chunks[c].index);
      chunks := chunks[c := chunks[c].(data := item)];
      free := free[p := free[p][1..]];
      TookIs(old(View()), p, next[..], prev[..], c);
    }

    method UnlinkFront(p: nat, c: nat, ghost d: PoolDesc, ghost s: seq<nat>)
      requires next != prev && next.Length == prev.Length == NODES && d.chunkBase + d.capacity <= MAX_ITEMS
      requires IsList(next[..], prev[..], HeadNode(p), s) && s != [] && c == s[0] < NODES && p < MAX_POOLS
      requires forall k | 0 <= k < |s| :: InPool(d, s[k])
      modifies next, prev
      ensures IsList(next[..], prev[..], HeadNode(p), s[1..]) && next[HeadNode(p)] == old(next[c])
      ensures LinksKept(old(next[..]), old(prev[..]), next[..], prev[..], p, d)
    {
      NextOfFront(next[..], prev[..], HeadNode(p), s);
      ListRemoveFirst(next, prev, HeadNode(p), c, s);
      FrontOfList(next[..], prev[..], HeadNode(p), s[1..]);
      LinksOfPool(old(next[..]), old(prev[..]), next[..], prev[..], p, d, [HeadNode(p)] + s);
    }

    /** Makes a pool of `n` items over the lowest free chunks. The allocator stays sound exactly
        when those chunks follow each other. */
    method PoolCreate(addr: nat, itemSize: nat, n: nat) returns (r: Creation)
      requires Valid()
      modifies this, next, prev
      ensures r == NoPool <==> addr == 0
      ensures r == Panic <==> addr != 0 && (CountBits(old(chunkFree)) < n || LowBit(old(poolFree), 0) == MAX_POOLS)
      ensures !r.NewPool? ==> View() == old(View())
      ensures r.NewPool? ==> r.p == LowBit(old(poolFree), 0) && Sized(View()) && Made(old(View()), View(), r.p, addr, itemSize, n)
      ensures r.NewPool? ==> var d := pools[r.p]; d.valid && d.base == addr && d.itemSize == itemSize && d.capacity == n
      ensures Valid() <==> (r.NewPool? ==> Contiguous(old(chunkFree), n))
    {
      if addr == 0 { return NoPool; }
      if CountBits(chunkFree) < n { return Panic; }
      var p := LowBit(poolFree, 0);
      if p == MAX_POOLS { return Panic; }
      assert SlotOk(View(), p);
      MakePool(p, addr, itemSize, n);
      CreateExact(old(View()), View(), p, addr, itemSize, n);
      return NewPool(p);
    }

    /** A new pool hands out its memory from the start: the first item is at its address and the second
        right behind the first. */
    method CreateThenAlloc(addr: nat, itemSize: nat, n: nat) returns (r: Creation, a: nat, b: nat)
      requires Valid() && n >= 2 && Contiguous(chunkFree, n)
      modifies this, next, prev
      ensures Valid()
      ensures r.NewPool? ==> a == addr && b == addr + itemSize
    {
      r := PoolCreate(addr, itemSize, n);
      a, b := 0, 0;
      if r.NewPool? {
        a := AllocNext(r.p, 0);
        b := AllocNext(r.p, 1);
        ItemsAdjoin(pools[r.p], 0);
      }
    }

    /** Hands out item `i` when that is the first free one. */
    method AllocNext(p: nat, i: nat) returns (item: nat)
      requires Valid() && p < MAX_POOLS && pools[p].valid && free[p] != [] && free[p][0] == i
      modifies this, next, prev
      ensures Valid() && item == ItemAddress(old(pools[p]), i)
      ensures free == old(free)[p := old(free[p])[1..]] && pools[p] == old(pools[p]).(alloc := pools[p].alloc)
    {
      LivePlusFree(View(), p);
      item := PoolAlloc(p);
    }

    method MakePool(p: nat, addr: nat, itemSize: nat, n: nat)
      requires next != prev && Sized(View()) && p < MAX_POOLS && poolFree[p] && pools[p] == EMPTY_DESC && addr > 0
      requires n <= CountBits(chunkFree)
      modifies this, next, prev
      ensures Sized(View()) && Made(old(View()), View(), p, addr, itemSize, n)
    {
      poolFree := poolFree[p := false];
      pools := pools[p := pools[p].(valid := true, base := addr, itemSize := itemSize, capacity := n)];
      ListInit(next, prev, HeadNode(p));
      free := free[p := Iota(n)];
      FillList(p, n);
    }

    method FillList(p: nat, n: nat)
      requires next != prev && Sized(View()) && p < MAX_POOLS && n <= CountBits(chunkFree)
      requires IsList(next[..], prev[..], HeadNode(p), [])
      modifies this, next, prev
      ensures Sized(View()) && Filled(old(View()), View(), p, n)
    {
      ghost var w := View();
      var i := 0;
      assert Picks(w.chunkFree, 0) == [];
      while i < n
        invariant i <= n && Sized(View()) && Filled(w, View(), p, i)
      {
        TakeChunk(p, i, w);
        i := i + 1;
      }
      assert i == n;
    }

    method TakeChunk(p: nat, i: nat, ghost w: World)
      requires next != prev && Sized(w) && Sized(View()) && p < MAX_POOLS && i < CountBits(w.chunkFree) && Filled(w, View(), p, i)
      modifies this, next, prev
      ensures Sized(View()) && Filled(w, View(), p, i + 1)
    {
      ghost var w1 := View();
      NewPick(w.chunkFree, i);
      var c := LowBit(chunkFree, 0);
      LinkLast(p, c, Picks(w.chunkFree, i), w.next, w.prev);
      FilledStep(w, w1, p, i, next[..], prev[..]);
      chunkFree := chunkFree[c := false];
      chunks := chunks[c := Chunk(i, p, 0)];
      if i == 0 { pools := pools[p := pools[p].(chunkBase := c, alloc := c)]; }
    }

    method LinkLast(p: nat, c: nat, ghost s: seq<nat>, ghost next0: seq<nat>, ghost prev0: seq<nat>)
      requires next != prev && IsList(next[..], prev[..], HeadNode(p), s) && c < MAX_ITEMS < next.Length && c !in s
      requires LinksOutside(next0, prev0, next[..], prev[..], [HeadNode(p)] + s)
      modifies next, prev
      ensures IsList(next[..], prev[..], HeadNode(p), s + [c])
      ensures LinksOutside(next0, prev0, next[..], prev[..], [HeadNode(p)] + (s + [c]))
    {
      ghost var next', prev' := next[..], prev[..];
      ListAdd(next, prev, HeadNode(p), c, s);
      LinksStep(next0, prev0, next', prev', next[..], prev[..], [HeadNode(p)] + s, [HeadNode(p)] + s + [c]);
      assert [HeadNode(p)] + s + [c] == [HeadNode(p)] + (s + [c]);
    }

    /** Gives all chunks of the pool back and blanks its descriptor. */
    method PoolDestroy(p: int)
      requires Valid()
      modifies this, next, prev
      ensures Valid()
      ensures if old(IsPool(p)) then Destroyed(old(View()), View(), p) else View() == old(View())
    {
      if !IsPool(p) { return; }
      assert SlotOk(View(), p) && PoolOk(View(), p);
      var d := pools[p];
      ReleaseChunks(p, d);
      next[HeadNode(p)], prev[HeadNode(p)] := 0, 0;
      assert next[..] == Wiped(old(next[..]), d, p) && prev[..] == Wiped(old(prev[..]), d, p);
      poolFree := poolFree[p := true];
      pools := pools[p := EMPTY_DESC];
      free := free[p := []];
      DestroyKeeps(old(View()), View(), p);
    }

    /** Sets the bits of all chunks of the pool, and wipes its first chunk every time. */
    method ReleaseChunks(p: nat, d: PoolDesc)
      requires next != prev && Sized(View()) && p < MAX_POOLS && d.chunkBase + d.capacity <= MAX_ITEMS
      modifies this`chunkFree, this`chunks, next, prev
      ensures chunkFree == Released(old(chunkFree), d.chunkBase, d.capacity)
      ensures chunks == if d.capacity == 0 then old(chunks) else old(chunks)[d.chunkBase := Chunk(0, 0, 0)]
      ensures next[..] == if d.capacity == 0 then old(next[..]) else old(next[..])[d.chunkBase := 0]
      ensures prev[..] == if d.capacity == 0 then old(prev[..]) else old(prev[..])[d.chunkBase := 0]
    {
      var i := 0;
      while i < d.capacity
        invariant i <= d.capacity && chunkFree == Released(old(chunkFree), d.chunkBase, i)
        invariant chunks == if i == 0 then old(chunks) else old(chunks)[d.chunkBase := Chunk(0, 0, 0)]
        invariant next[..] == if i == 0 then old(next[..]) else old(next[..])[d.chunkBase := 0]
        invariant prev[..] == if i == 0 then old(prev[..]) else old(prev[..])[d.chunkBase := 0]
      {
        chunkFree := chunkFree[d.chunkBase + i := true];
        chunks := chunks[d.chunkBase := Chunk(0, 0, 0)];
        next[d.chunkBase], prev[d.chunkBase] := 0, 0;
        i := i + 1;
      }
      assert i == d.capacity;
    }
  }
}
