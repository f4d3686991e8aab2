/**
 The pool allocator: fixed-size items handed out from per-pool free lists, whose links live in
 chunk descriptors that all pools share.
 */
module Pool {
  import opened Values
  import opened Lists
  import opened Bitmap

  const MAX_POOLS := 32
  const MAX_ITEMS := 256
  const NODES := 288

  /** List node of the head of pool `p`; chunk `c` is node `c`. */
  function HeadNode(p: nat): nat { MAX_ITEMS + p }

  /** A pool descriptor; `valid` stands for the magic number and a non-null base. */
  datatype PoolDesc = PoolDesc(valid: bool, base: nat, itemSize: nat, capacity: nat, chunkBase: nat, alloc: nat)

  const EMPTY_DESC := PoolDesc(false, 0, 0, 0, 0, 0)

  /** A chunk descriptor; `data` is zero when the item is not allocated. */
  datatype Chunk = Chunk(index: nat, owner: nat, data: nat)

  /** All allocator state. `free` lists the free item numbers of each pool, front first. */
  datatype World = World(
    next: seq<nat>, prev: seq<nat>, pools: seq<PoolDesc>, chunks: seq<Chunk>,
    poolFree: seq<bool>, chunkFree: seq<bool>, free: seq<seq<nat>>)

  function Shift(s: seq<nat>, k: nat): (r: seq<nat>)
    ensures |r| == |s| && forall i | 0 <= i < |s| :: r[i] == s[i] + k
  {
    seq(|s|, i requires 0 <= i < |s| => s[i] + k)
  }

  ghost predicate Sized(w: World) {
    && |w.next| == |w.prev| == NODES && |w.chunks| == |w.chunkFree| == MAX_ITEMS
    && |w.pools| == |w.poolFree| == |w.free| == MAX_POOLS
  }

  ghost predicate InPool(d: PoolDesc, c: int) { d.chunkBase <= c < d.chunkBase + d.capacity }

  /** The pools share no chunk. */
  ghost predicate Apart(d: PoolDesc, e: PoolDesc) {
    d.capacity == 0 || e.capacity == 0 || d.chunkBase + d.capacity <= e.chunkBase || e.chunkBase + e.capacity <= d.chunkBase
  }

  function ItemAddress(d: PoolDesc, i: nat): (r: nat)
    ensures r >= d.base
  {
    d.base + d.itemSize * i
  }

  /** The free list of a pool: distinct items, linked in order, the allocation pointer at the front. */
  ghost predicate ListOk(next: seq<nat>, prev: seq<nat>, p: nat, d: PoolDesc, f: seq<nat>) {
    && Distinct(f) && (forall k | 0 <= k < |f| :: f[k] < d.capacity)
    && IsList(next, prev, HeadNode(p), Shift(f, d.chunkBase))
    && (f != [] ==> d.alloc == d.chunkBase + f[0])
  }

  /** The chunks of a pool: contiguous, taken, and exactly the items not on the free list carry
      their address. */
  ghost predicate ChunksOk(chunks: seq<Chunk>, chunkFree: seq<bool>, d: PoolDesc, f: seq<nat>) {
    && d.chunkBase + d.capacity <= |chunks| == |chunkFree|
    && (forall c | d.chunkBase <= c < d.chunkBase + d.capacity :: !chunkFree[c])
    && (forall c | d.chunkBase <= c < d.chunkBase + d.capacity :: ChunkOk(chunks[c], d, f, c - d.chunkBase))
  }

  ghost predicate PoolOk(w: World, p: nat)
    requires Sized(w) && p < MAX_POOLS
  {
    && w.pools[p].base > 0
    && ListOk(w.next, w.prev, p, w.pools[p], w.free[p])
    && ChunksOk(w.chunks, w.chunkFree, w.pools[p], w.free[p])
  }

  ghost predicate ChunkOk(c: Chunk, d: PoolDesc, f: seq<nat>, i: nat) {
    c.index == i && c.data == (if i in f then 0 else ItemAddress(d, i))
  }

  /** A pool slot is either taken by a sound pool or free and blank. */
  ghost predicate SlotOk(w: World, p: nat)
    requires Sized(w) && p < MAX_POOLS
  {
    w.pools[p].valid != w.poolFree[p] && if w.pools[p].valid then PoolOk(w, p) else w.pools[p] == EMPTY_DESC
  }

  ghost predicate Inv(w: World) {
    && Sized(w)
    && (forall p | 0 <= p < MAX_POOLS :: SlotOk(w, p))
    && (forall p, q | 0 <= p < MAX_POOLS && 0 <= q < MAX_POOLS && p != q && w.pools[p].valid && w.pools[q].valid ::
          Apart(w.pools[p], w.pools[q]))
  }

  /** A pool does not notice changes outside its own descriptor, chunks and list nodes. */
  lemma PoolFrame(w: World, w': World, p: nat)
    requires Sized(w) && Sized(w') && p < MAX_POOLS && PoolOk(w, p)
    requires w'.pools[p] == w.pools[p] && w'.free[p] == w.free[p]
    requires forall c | 0 <= c < MAX_ITEMS && InPool(w.pools[p], c) ::
               w'.chunks[c] == w.chunks[c] && w'.chunkFree[c] == w.chunkFree[c] && w'.next[c] == w.next[c] && w'.prev[c] == w.prev[c]
    requires w'.next[HeadNode(p)] == w.next[HeadNode(p)] && w'.prev[HeadNode(p)] == w.prev[HeadNode(p)]
    ensures PoolOk(w', p)
  {
    var s := Shift(w.free[p], w.pools[p].chunkBase);
    forall x | x in [HeadNode(p)] + s ensures w'.next[x] == w.next[x] && w'.prev[x] == w.prev[x] {
      if x != HeadNode(p) {
        var i :| 0 <= i < |s| && s[i] == x;
        assert InPool(w.pools[p], x);
      }
    }
    ListFrame(w.next, w.prev, w'.next, w'.prev, HeadNode(p), s);
    assert forall c | 0 <= c < MAX_ITEMS && InPool(w.pools[p], c) :: w'.chunks[c] == w.chunks[c];
  }

  // ---- accounting ----

  ghost function Below(n: nat): (r: set<nat>)
    ensures |r| == n && forall x: nat :: x in r <==> x < n
  {
    if n == 0 then {} else Below(n - 1) + {n - 1}
  }

  ghost function Elements(s: seq<nat>): (r: set<nat>)
    ensures forall x: nat :: x in r <==> x in s
  {
    if s == [] then {} else Elements(s[..|s| - 1]) + {s[|s| - 1]}
  }

  lemma {:induction false} ElementCount(s: seq<nat>)
    requires Distinct(s)
    ensures |Elements(s)| == |s|
  {
    if s != [] { ElementCount(s[..|s| - 1]); }
  }

  /** Items of a pool that are handed out. */
  ghost function Live(w: World, p: nat): set<nat>
    requires Sized(w) && p < MAX_POOLS
  {
    Below(w.pools[p].capacity) - Elements(w.free[p])
  }

  /** Live items plus free items make up the capacity. */
  lemma LivePlusFree(w: World, p: nat)
    requires Inv(w) && p < MAX_POOLS && w.pools[p].valid
    ensures |Live(w, p)| + |w.free[p]| == w.pools[p].capacity
  {
    assert SlotOk(w, p);
    ElementCount(w.free[p]);
    assert Elements(w.free[p]) <= Below(w.pools[p].capacity);
  }

  /** The address ranges of two different items do not overlap. */
  lemma ItemsApart(d: PoolDesc, i: nat, j: nat)
    requires i < j
    ensures ItemAddress(d, i) + d.itemSize <= ItemAddress(d, j)
  {
    assert d.itemSize * (i + 1) == d.itemSize * i + d.itemSize;
    assert d.itemSize * (i + 1) <= d.itemSize * j;
  }

  // ---- what one operation on pool `p` may touch ----

  /** `w'` differs from `w` only in pool `p`: its descriptor, its chunks and its list. `d` is the
      descriptor whose chunks are touched. */
  ghost predicate OnlyPool(w: World, w': World, p: nat, d: PoolDesc)
    requires Sized(w) && Sized(w') && p < MAX_POOLS
  {
    && (forall q | 0 <= q < MAX_POOLS && q != p ::
          w'.pools[q] == w.pools[q] && w'.free[q] == w.free[q] && w'.poolFree[q] == w.poolFree[q])
    && (forall c | 0 <= c < MAX_ITEMS && !InPool(d, c) :: w'.chunks[c] == w.chunks[c] && w'.chunkFree[c] == w.chunkFree[c])
    && LinksKept(w.next, w.prev, w'.next, w'.prev, p, d)
  }

  /** The links outside pool `p` are the same. */
  ghost predicate LinksKept(next: seq<nat>, prev: seq<nat>, next': seq<nat>, prev': seq<nat>, p: nat, d: PoolDesc)
    requires |next| == |prev| == |next'| == |prev'| == NODES
  {
    && (forall c | 0 <= c < MAX_ITEMS && !InPool(d, c) :: next'[c] == next[c] && prev'[c] == prev[c])
    && (forall n | MAX_ITEMS <= n < NODES && n != HeadNode(p) :: next'[n] == next[n] && prev'[n] == prev[n])
  }

  lemma OtherKeeps(w: World, w': World, p: nat, d: PoolDesc, q: nat)
    requires Sized(w) && Sized(w') && p < MAX_POOLS && OnlyPool(w, w', p, d)
    requires q < MAX_POOLS && q != p && PoolOk(w, q) && Apart(d, w.pools[q])
    ensures PoolOk(w', q)
  {
    forall c | 0 <= c < MAX_ITEMS && InPool(w.pools[q], c) ensures !InPool(d, c) {
    }
    PoolFrame(w, w', q);
  }

  /** The other pools are as they were, and still share no chunk with `d`. */
  ghost predicate Around(w: World, p: nat, d: PoolDesc)
    requires Sized(w) && p < MAX_POOLS
  {
    && (forall q | 0 <= q < MAX_POOLS && q != p :: SlotOk(w, q))
    && (forall q | 0 <= q < MAX_POOLS && q != p && w.pools[q].valid :: Apart(d, w.pools[q]))
    && (forall q, r | 0 <= q < MAX_POOLS && 0 <= r < MAX_POOLS && q != r && q != p && r != p && w.pools[q].valid && w.pools[r].valid ::
          Apart(w.pools[q], w.pools[r]))
  }

  lemma OtherSlotKeeps(w: World, w': World, p: nat, d: PoolDesc, q: nat)
    requires Sized(w) && Sized(w') && p < MAX_POOLS && OnlyPool(w, w', p, d) && q < MAX_POOLS && q != p && SlotOk(w, q)
    requires w.pools[q].valid ==> Apart(d, w.pools[q])
    ensures SlotOk(w', q)
  {
    if w.pools[q].valid { OtherKeeps(w, w', p, d, q); }
  }

  lemma AroundKeeps(w: World, w': World, p: nat, d: PoolDesc)
    requires Sized(w) && Sized(w') && p < MAX_POOLS && OnlyPool(w, w', p, d) && Around(w, p, d)
    ensures Around(w', p, d)
  {
    forall q | 0 <= q < MAX_POOLS && q != p ensures SlotOk(w', q) {
      OtherSlotKeeps(w, w', p, d, q);
    }
  }

  lemma Gather(w: World, p: nat, d: PoolDesc)
    requires Sized(w) && p < MAX_POOLS && Around(w, p, d) && SlotOk(w, p)
    requires w.pools[p].valid ==> w.pools[p].chunkBase == d.chunkBase && w.pools[p].capacity == d.capacity
    ensures Inv(w)
  {
    assert w.pools[p].valid ==> forall q | 0 <= q < MAX_POOLS && q != p && w.pools[q].valid :: Apart(w.pools[p], w.pools[q]);
  }

  lemma OthersKeep(w: World, w': World, p: nat, d: PoolDesc)
    requires Sized(w) && Sized(w') && p < MAX_POOLS && OnlyPool(w, w', p, d) && Around(w, p, d) && SlotOk(w', p)
    requires w'.pools[p].valid ==> w'.pools[p].chunkBase == d.chunkBase && w'.pools[p].capacity == d.capacity
    ensures Inv(w')
  {
    AroundKeeps(w, w', p, d);
    Gather(w', p, d);
  }

  /** `w'` is `w` after the front of the free list of `p` has been taken and given its address. */
  ghost predicate Took(w: World, w': World, p: nat)
    requires Sized(w) && Sized(w') && p < MAX_POOLS && w.free[p] != []
  {
    var d, c := w.pools[p], w.pools[p].alloc;
    && OnlyPool(w, w', p, d) && w'.poolFree == w.poolFree && w'.chunkFree == w.chunkFree
    && w'.free[p] == w.free[p][1..]
    && IsList(w'.next, w'.prev, HeadNode(p), Shift(w.free[p], d.chunkBase)[1..])
    && w'.pools[p] == d.(alloc := w'.next[HeadNode(p)])
    && c < MAX_ITEMS && w'.chunks == w.chunks[c := w.chunks[c].(data := ItemAddress(d, w.chunks[c].index))]
  }

  lemma TookIs(w: World, p: nat, next': seq<nat>, prev': seq<nat>, c: nat)
    requires Sized(w) && p < MAX_POOLS && w.free[p] != [] && c == w.pools[p].alloc < MAX_ITEMS && InPool(w.pools[p], c)
    requires |next'| == |prev'| == NODES && LinksKept(w.next, w.prev, next', prev', p, w.pools[p])
    requires IsList(next', prev', HeadNode(p), Shift(w.free[p], w.pools[p].chunkBase)[1..])
    ensures var d := w.pools[p];
            var w' := World(next', prev', w.pools[p := d.(alloc := next'[HeadNode(p)])],
                            w.chunks[c := w.chunks[c].(data := ItemAddress(d, w.chunks[c].index))],
                            w.poolFree, w.chunkFree, w.free[p := w.free[p][1..]]);
            Sized(w') && Took(w, w', p)
  {
  }

  lemma TookList(next: seq<nat>, prev: seq<nat>, next': seq<nat>, prev': seq<nat>, p: nat, d: PoolDesc, f: seq<nat>)
    requires ListOk(next, prev, p, d, f) && f != []
    requires IsList(next', prev', HeadNode(p), Shift(f, d.chunkBase)[1..])
    ensures HeadNode(p) < |next'| && ListOk(next', prev', p, d.(alloc := next'[HeadNode(p)]), f[1..])
  {
    assert Shift(f, d.chunkBase)[1..] == Shift(f[1..], d.chunkBase);
    FrontOfList(next', prev', HeadNode(p), Shift(f[1..], d.chunkBase));
  }

  lemma TookChunks(chunks: seq<Chunk>, mask: seq<bool>, d: PoolDesc, f: seq<nat>, alloc: nat)
    requires ChunksOk(chunks, mask, d, f) && Distinct(f) && f != [] && f[0] < d.capacity
    ensures var c := d.chunkBase + f[0];
            ChunksOk(chunks[c := chunks[c].(data := ItemAddress(d, chunks[c].index))], mask, d.(alloc := alloc), f[1..])
  {
    forall k: nat ensures k in f[1..] <==> k in f && k != f[0] {
      RestOf(f, k);
    }
  }

  lemma TookOwn(w: World, w': World, p: nat)
    requires Sized(w) && Sized(w') && p < MAX_POOLS && w.pools[p].valid && SlotOk(w, p) && w.free[p] != [] && Took(w, w', p)
    ensures SlotOk(w', p)
  {
    TookList(w.next, w.prev, w'.next, w'.prev, p, w.pools[p], w.free[p]);
    TookChunks(w.chunks, w.chunkFree, w.pools[p], w.free[p], w'.pools[p].alloc);
    assert PoolOk(w', p);
  }

  /** Taking an item keeps the allocator sound. */
  lemma AllocKeeps(w: World, w': World, p: nat)
    requires Inv(w) && Sized(w') && p < MAX_POOLS && w.pools[p].valid && w.free[p] != [] && Took(w, w', p)
    ensures Inv(w')
  {
    TookOwn(w, w', p);
    OthersKeep(w, w', p, w.pools[p]);
  }

  lemma FrontOfList(next: seq<nat>, prev: seq<nat>, head: nat, s: seq<nat>)
    requires IsList(next, prev, head, s)
    ensures head < |next| && next[head] == if s == [] then head else s[0]
  {
    var r := [head] + s;
    assert r[0] == head;
    if s != [] { assert r[1] == s[0]; }
  }

  lemma RestOf(f: seq<nat>, i: nat)
    requires Distinct(f) && f != []
    ensures i in f[1..] <==> i in f && i != f[0]
  {
    assert f == [f[0]] + f[1..];
  }

  /** `w'` is `w` after item `i` has been put at the front of the free list of `p`. */
  ghost predicate Returned(w: World, w': World, p: nat, i: nat)
    requires Sized(w) && Sized(w') && p < MAX_POOLS
  {
    var d, c := w.pools[p], w.pools[p].chunkBase + i;
    && OnlyPool(w, w', p, d) && w'.poolFree == w.poolFree && w'.chunkFree == w.chunkFree
    && w'.free[p] == [i] + w.free[p]
    && IsList(w'.next, w'.prev, HeadNode(p), [c] + Shift(w.free[p], d.chunkBase))
    && w'.pools[p] == d.(alloc := c)
    && c < MAX_ITEMS && w'.chunks == w.chunks[c := w.chunks[c].(data := 0)]
  }

  lemma ReturnedIs(w: World, p: nat, next': seq<nat>, prev': seq<nat>, i: nat)
    requires Sized(w) && p < MAX_POOLS && w.pools[p].chunkBase + w.pools[p].capacity <= MAX_ITEMS && i < w.pools[p].capacity
    requires |next'| == |prev'| == NODES && LinksKept(w.next, w.prev, next', prev', p, w.pools[p])
    requires IsList(next', prev', HeadNode(p), [w.pools[p].chunkBase + i] + Shift(w.free[p], w.pools[p].chunkBase))
    ensures var d, c := w.pools[p], w.pools[p].chunkBase + i;
            var w' := World(next', prev', w.pools[p := d.(alloc := c)], w.chunks[c := w.chunks[c].(data := 0)],
                            w.poolFree, w.chunkFree, w.free[p := [i] + w.free[p]]);
            Sized(w') && Returned(w, w', p, i)
  {
  }

  lemma ReturnedList(next: seq<nat>, prev: seq<nat>, next': seq<nat>, prev': seq<nat>, p: nat, d: PoolDesc, f: seq<nat>, i: nat)
    requires ListOk(next, prev, p, d, f) && i < d.capacity && i !in f
    requires IsList(next', prev', HeadNode(p), [d.chunkBase + i] + Shift(f, d.chunkBase))
    ensures ListOk(next', prev', p, d.(alloc := d.chunkBase + i), [i] + f)
  {
    assert [d.chunkBase + i] + Shift(f, d.chunkBase) == Shift([i] + f, d.chunkBase);
    FrontDistinct(f, i);
  }

  lemma ReturnedChunks(chunks: seq<Chunk>, mask: seq<bool>, d: PoolDesc, f: seq<nat>, i: nat)
    requires ChunksOk(chunks, mask, d, f) && i < d.capacity
    ensures var c := d.chunkBase + i;
            ChunksOk(chunks[c := chunks[c].(data := 0)], mask, d.(alloc := c), [i] + f)
  {
    forall k: nat ensures k in [i] + f <==> k == i || k in f {
      WithFront(f, i, k);
    }
  }

  lemma WithFront(f: seq<nat>, i: nat, k: nat)
    ensures k in [i] + f <==> k == i || k in f
  {
  }

  lemma FrontDistinct(f: seq<nat>, i: nat)
    requires Distinct(f) && i !in f
    ensures Distinct([i] + f)
  {
  }

  lemma ReturnedOwn(w: World, w': World, p: nat, i: nat)
    requires Sized(w) && Sized(w') && p < MAX_POOLS && w.pools[p].valid && SlotOk(w, p)
    requires i < w.pools[p].capacity && i !in w.free[p] && Returned(w, w', p, i)
    ensures SlotOk(w', p)
  {
    var d, f, d', f' := w.pools[p], w.free[p], w'.pools[p], w'.free[p];
    ReturnedList(w.next, w.prev, w'.next, w'.prev, p, d, f, i);
    assert ListOk(w'.next, w'.prev, p, d', f');
    ReturnedChunks(w.chunks, w.chunkFree, d, f, i);
    assert ChunksOk(w'.chunks, w'.chunkFree, d', f');
  }

  /** Giving a live item back keeps the allocator sound. */
  lemma FreeKeeps(w: World, w': World, p: nat, i: nat)
    requires Inv(w) && Sized(w') && p < MAX_POOLS && w.pools[p].valid && i < w.pools[p].capacity && i !in w.free[p]
    requires Returned(w, w', p, i)
    ensures Inv(w')
  {
    ReturnedOwn(w, w', p, i);
    OthersKeep(w, w', p, w.pools[p]);
  }

  // ---- creating and destroying ----

  function Iota(n: nat): (r: seq<nat>)
    ensures |r| == n && forall i | 0 <= i < n :: r[i] == i
  {
    seq(n, i => i)
  }

  /** `w'` is `w` after pool `p` has been created over chunks `lo` .. `lo+n-1`. */
  ghost predicate Created(w: World, w': World, p: nat, lo: nat)
    requires Sized(w) && Sized(w') && p < MAX_POOLS
  {
    var d := w'.pools[p];
    && OnlyPool(w, w', p, d) && !w'.poolFree[p] && d.valid && d.base > 0 && d.chunkBase == lo && lo + d.capacity <= MAX_ITEMS
    && (d.capacity > 0 ==> d.alloc == lo)
    && w'.free[p] == Iota(d.capacity)
    && IsList(w'.next, w'.prev, HeadNode(p), Shift(Iota(d.capacity), lo))
    && (forall c | lo <= c < lo + d.capacity :: w.chunkFree[c] && !w'.chunkFree[c] && w'.chunks[c] == Chunk(c - lo, p, 0))
  }

  lemma CreatedOwn(w: World, w': World, p: nat, lo: nat)
    requires Sized(w) && Sized(w') && p < MAX_POOLS && Created(w, w', p, lo)
    ensures PoolOk(w', p)
  {
    var d := w'.pools[p];
    forall c | lo <= c < lo + d.capacity ensures ChunkOk(w'.chunks[c], d, Iota(d.capacity), c - lo) {
      assert Iota(d.capacity)[c - lo] == c - lo;
    }
  }

  lemma CreateKeeps(w: World, w': World, p: nat, lo: nat)
    requires Inv(w) && Sized(w') && p < MAX_POOLS && !w.pools[p].valid && Created(w, w', p, lo)
    ensures Inv(w')
  {
    var d := w'.pools[p];
    CreatedOwn(w, w', p, lo);
    forall q | 0 <= q < MAX_POOLS && q != p && w.pools[q].valid ensures Apart(d, w.pools[q]) {
      assert SlotOk(w, q);
      TakenChunksApart(w, q, d, lo);
    }
    OthersKeep(w, w', p, d);
  }

  /** A range of free chunks meets no existing pool. */
  lemma TakenChunksApart(w: World, q: nat, d: PoolDesc, lo: nat)
    requires Sized(w) && q < MAX_POOLS && PoolOk(w, q) && d.chunkBase == lo && lo + d.capacity <= MAX_ITEMS
    requires forall c | lo <= c < lo + d.capacity :: w.chunkFree[c]
    ensures Apart(d, w.pools[q])
  {
    var e := w.pools[q];
    var c := if lo < e.chunkBase then e.chunkBase else lo;
    if c < MAX_ITEMS {
      assert (lo <= c < lo + d.capacity ==> w.chunkFree[c]) && (InPool(e, c) ==> !w.chunkFree[c]);
    }
  }

  /** The chunk table after scans `0` .. `n-1` have each stamped the chunk they found. */
  function Stamped(chunks: seq<Chunk>, mask: seq<bool>, p: nat, n: nat): (r: seq<Chunk>)
    requires |chunks| == |mask|
    ensures |r| == |chunks|
  {
    if n == 0 then chunks
    else
      var c := Pick(mask, n - 1);
      var s := Stamped(chunks, mask, p, n - 1);
      if c < |s| then s[c := Chunk(n - 1, p, 0)] else s
  }

  /** The descriptor of a new pool; the chunk pointers of a pool without items stay null. */
  function NewDesc(addr: nat, itemSize: nat, mask: seq<bool>, n: nat): PoolDesc {
    var lo := if n == 0 then 0 else Pick(mask, 0);
    PoolDesc(true, addr, itemSize, n, lo, lo)
  }

  /** `w'` is `w` after pool `p` has been given the `n` lowest free chunks, wherever they are. */
  ghost predicate Made(w: World, w': World, p: nat, addr: nat, itemSize: nat, n: nat)
    requires Sized(w) && Sized(w') && p < MAX_POOLS
  {
    && w.poolFree[p] && addr > 0 && n <= CountBits(w.chunkFree)
    && w'.pools == w.pools[p := NewDesc(addr, itemSize, w.chunkFree, n)]
    && w'.poolFree == w.poolFree[p := false] && w'.chunkFree == MaskAfter(w.chunkFree, n)
    && w'.chunks == Stamped(w.chunks, w.chunkFree, p, n) && w'.free == w.free[p := Iota(n)]
    && IsList(w'.next, w'.prev, HeadNode(p), Picks(w.chunkFree, n))
    && LinksOutside(w.next, w.prev, w'.next, w'.prev, [HeadNode(p)] + Picks(w.chunkFree, n))
  }

  /** Only the links of the nodes in `r` may differ. */
  ghost predicate LinksOutside(next: seq<nat>, prev: seq<nat>, next': seq<nat>, prev': seq<nat>, r: seq<nat>) {
    && |next| == |prev| == |next'| == |prev'|
    && forall x: nat | x < |next| && x !in r :: next'[x] == next[x] && prev'[x] == prev[x]
  }

  lemma {:induction false} StampedAt(chunks: seq<Chunk>, mask: seq<bool>, p: nat, n: nat, lo: nat)
    requires |chunks| == |mask| && forall k | 0 <= k < n :: Pick(mask, k) == lo + k
    requires lo + n <= |mask|
    ensures var r, m := Stamped(chunks, mask, p, n), MaskAfter(mask, n);
            forall c | 0 <= c < |mask| ::
              if lo <= c < lo + n then r[c] == Chunk(c - lo, p, 0) && !m[c] else r[c] == chunks[c] && m[c] == mask[c]
  {
    if n > 0 { StampedAt(chunks, mask, p, n - 1, lo); assert Pick(mask, n - 1) == lo + (n - 1); }
  }

  lemma LinksOfPool(next: seq<nat>, prev: seq<nat>, next': seq<nat>, prev': seq<nat>, p: nat, d: PoolDesc, r: seq<nat>)
    requires LinksOutside(next, prev, next', prev', r) && |next| == NODES && d.chunkBase + d.capacity <= MAX_ITEMS
    requires forall k | 0 <= k < |r| :: r[k] == HeadNode(p) || InPool(d, r[k])
    ensures LinksKept(next, prev, next', prev', p, d)
  {
  }

  lemma PicksInRange(mask: seq<bool>, n: nat, lo: nat)
    requires forall k | 0 <= k < n :: Pick(mask, k) == lo + k
    ensures Picks(mask, n) == Shift(Iota(n), lo)
  {
  }

  lemma MadeFrame(w: World, w': World, p: nat, addr: nat, itemSize: nat, n: nat, lo: nat)
    requires Sized(w) && Sized(w') && p < MAX_POOLS && Made(w, w', p, addr, itemSize, n)
    requires forall k | 0 <= k < n :: Pick(w.chunkFree, k) == lo + k
    requires lo + n <= MAX_ITEMS && (n == 0 ==> lo == 0)
    ensures w'.pools[p].chunkBase == lo && OnlyPool(w, w', p, w'.pools[p])
    ensures forall c | lo <= c < lo + n :: !w'.chunkFree[c] && w'.chunks[c] == Chunk(c - lo, p, 0)
  {
    StampedAt(w.chunks, w.chunkFree, p, n, lo);
    PicksInRange(w.chunkFree, n, lo);
    LinksOfPool(w.next, w.prev, w'.next, w'.prev, p, w'.pools[p], [HeadNode(p)] + Picks(w.chunkFree, n));
  }

  /** When the lowest free chunks follow each other the new pool is made over one range. */
  lemma MadeInRange(w: World, w': World, p: nat, addr: nat, itemSize: nat, n: nat, lo: nat)
    requires Sized(w) && Sized(w') && p < MAX_POOLS && Made(w, w', p, addr, itemSize, n)
    requires forall k | 0 <= k < n :: Pick(w.chunkFree, k) == lo + k
    requires lo + n <= MAX_ITEMS && (n == 0 ==> lo == 0) && forall c | lo <= c < lo + n :: w.chunkFree[c]
    ensures Created(w, w', p, lo)
  {
    MadeFrame(w, w', p, addr, itemSize, n, lo);
    PicksInRange(w.chunkFree, n, lo);
  }

  /** Two readings of the same links agree as far as both go. */
  lemma {:induction false} SameNodes(next: seq<nat>, prev: seq<nat>, r: seq<nat>, t: seq<nat>, k: nat)
    requires Circle(next, prev, r) && Circle(next, prev, t) && r[0] == t[0] && k < |r| && k < |t|
    ensures r[k] == t[k]
  {
    if k > 0 {
      SameNodes(next, prev, r, t, k - 1);
      assert next[r[k - 1]] == r[k] && next[t[k - 1]] == t[k];
    }
  }

  lemma NoLonger(next: seq<nat>, prev: seq<nat>, r: seq<nat>, t: seq<nat>)
    requires Circle(next, prev, r) && Circle(next, prev, t) && r[0] == t[0]
    ensures |t| <= |r|
  {
    if |r| < |t| { SameNodes(next, prev, r, t, |r| - 1); }
  }

  /** The list of a node has one reading. */
  lemma SameList(next: seq<nat>, prev: seq<nat>, head: nat, s: seq<nat>, t: seq<nat>)
    requires IsList(next, prev, head, s) && IsList(next, prev, head, t)
    ensures s == t
  {
    var r, q := [head] + s, [head] + t;
    NoLonger(next, prev, r, q);
    NoLonger(next, prev, q, r);
    forall k | 0 <= k < |r| ensures r[k] == q[k] { SameNodes(next, prev, r, q, k); }
    assert forall k | 0 <= k < |s| :: s[k] == r[k + 1] && t[k] == q[k + 1];
  }

  /** When they do not, no reading of its links makes the new pool sound: some chunk of its list
      lies beyond `chunkBase + capacity`. */
  lemma MadeScattered(w: World, w': World, p: nat, addr: nat, itemSize: nat, n: nat, f: seq<nat>)
    requires Sized(w) && Sized(w') && p < MAX_POOLS && Made(w, w', p, addr, itemSize, n) && !Contiguous(w.chunkFree, n)
    ensures !ListOk(w'.next, w'.prev, p, w'.pools[p], f)
  {
    var mask := w.chunkFree;
    if ListOk(w'.next, w'.prev, p, w'.pools[p], f) {
      SameList(w'.next, w'.prev, HeadNode(p), Picks(mask, n), Shift(f, w'.pools[p].chunkBase));
      forall k | 0 <= k < n ensures Pick(mask, k) == LowBit(mask, 0) + k {
        PickSpread(mask, 0, k);
        PickSpread(mask, k, n - 1);
        assert Picks(mask, n)[n - 1] == Shift(f, w'.pools[p].chunkBase)[n - 1];
      }
      PicksContiguous(mask, n);
    }
  }

  /** Creating a pool keeps the allocator sound exactly when the lowest free chunks follow each
      other. */
  lemma CreateExact(w: World, w': World, p: nat, addr: nat, itemSize: nat, n: nat)
    requires Inv(w) && Sized(w') && p < MAX_POOLS && Made(w, w', p, addr, itemSize, n)
    ensures Inv(w') <==> Contiguous(w.chunkFree, n)
  {
    assert SlotOk(w, p);
    if Contiguous(w.chunkFree, n) {
      var lo := if n == 0 then 0 else LowBit(w.chunkFree, 0);
      PicksContiguous(w.chunkFree, n);
      MadeInRange(w, w', p, addr, itemSize, n, lo);
      CreateKeeps(w, w', p, lo);
    } else {
      MadeScattered(w, w', p, addr, itemSize, n, w'.free[p]);
      assert Inv(w') ==> SlotOk(w', p);
    }
  }

  /** What wiping the first chunk descriptor and the pool descriptor does to the links; a wiped
      link is written as zero. */
  function Wiped(links: seq<nat>, d: PoolDesc, p: nat): (r: seq<nat>)
    ensures |r| == |links|
    ensures forall x | 0 <= x < |links| && x != HeadNode(p) && (d.capacity == 0 || x != d.chunkBase) :: r[x] == links[x]
  {
    seq(|links|, x requires 0 <= x < |links| =>
      if x == HeadNode(p) || (d.capacity > 0 && x == d.chunkBase) then 0 else links[x])
  }

  /** `w'` is `w` after pool `p` has been destroyed. Of its chunks only the first one is wiped. */
  ghost predicate Destroyed(w: World, w': World, p: nat)
    requires Sized(w) && Sized(w') && p < MAX_POOLS
  {
    var d := w.pools[p];
    && w'.next == Wiped(w.next, d, p) && w'.prev == Wiped(w.prev, d, p)
    && w'.pools == w.pools[p := EMPTY_DESC] && w'.poolFree == w.poolFree[p := true] && w'.free == w.free[p := []]
    && w'.chunkFree == Released(w.chunkFree, d.chunkBase, d.capacity)
    && (forall c | 0 <= c < MAX_ITEMS && (d.capacity == 0 || c != d.chunkBase) :: w'.chunks[c] == w.chunks[c])
    && (d.capacity > 0 && d.chunkBase < MAX_ITEMS ==> w'.chunks[d.chunkBase] == Chunk(0, 0, 0))
  }

  lemma WipedKept(next: seq<nat>, prev: seq<nat>, p: nat, d: PoolDesc)
    requires |next| == |prev| == NODES && p < MAX_POOLS && d.chunkBase + d.capacity <= MAX_ITEMS
    ensures LinksKept(next, prev, Wiped(next, d, p), Wiped(prev, d, p), p, d)
  {
    var next', prev' := Wiped(next, d, p), Wiped(prev, d, p);
    forall c | 0 <= c < MAX_ITEMS && !InPool(d, c) ensures next'[c] == next[c] && prev'[c] == prev[c] {
      assert d.capacity > 0 ==> InPool(d, d.chunkBase);
    }
  }

  /** Destroying a pool keeps the allocator sound. */
  lemma DestroyKeeps(w: World, w': World, p: nat)
    requires Inv(w) && Sized(w') && p < MAX_POOLS && w.pools[p].valid && Destroyed(w, w', p)
    ensures Inv(w')
  {
    assert SlotOk(w, p);
    WipedKept(w.next, w.prev, p, w.pools[p]);
    OthersKeep(w, w', p, w.pools[p]);
  }
}
