/**
 Whole runs of the pool allocator in which pools are destroyed in reverse order of creation.
 */
module PoolRuns {
  import opened Bitmap
  import opened Pool

  datatype Op =
    | Create(p: nat, addr: nat, itemSize: nat, n: nat)
    | Destroy(p: nat)
    | Alloc(p: nat)
    | Free(p: nat, i: nat)

  /** A state together with the existing pools, oldest first. */
  datatype State = State(w: World, order: seq<nat>)

  /** One call; a destroyed pool is the youngest one. */
  ghost predicate Step(s: State, op: Op, t: State) {
    && Sized(s.w) && Sized(t.w) && op.p < MAX_POOLS
    && match op {
      case Create(p, addr, itemSize, n) => Made(s.w, t.w, p, addr, itemSize, n) && t.order == s.order + [p]
      case Destroy(p) => s.w.pools[p].valid && Destroyed(s.w, t.w, p) && s.order == t.order + [p]
      case Alloc(p) => s.w.pools[p].valid && s.w.free[p] != [] && Took(s.w, t.w, p) && t.order == s.order
      case Free(p, i) =>
        && s.w.pools[p].valid && i < s.w.pools[p].capacity && i !in s.w.free[p]
        && Returned(s.w, t.w, p, i) && t.order == s.order
    }
  }

  /** Everything is free. */
  ghost predicate Fresh(s: State) {
    && Sized(s.w) && s.order == []
    && (forall p | 0 <= p < MAX_POOLS :: s.w.pools[p] == EMPTY_DESC && s.w.poolFree[p])
    && forall c | 0 <= c < MAX_ITEMS :: s.w.chunkFree[c]
  }

  /** The pools of `order` lie on top of each other from chunk 0 to chunk `top`. */
  ghost predicate Stacked(pools: seq<PoolDesc>, order: seq<nat>, top: int) {
    if order == [] then top == 0
    else
      var p := order[|order| - 1];
      && p < |pools| && pools[p].valid && p !in order[..|order| - 1]
      && (pools[p].capacity > 0 ==> pools[p].chunkBase + pools[p].capacity == top)
      && Stacked(pools, order[..|order| - 1], top - pools[p].capacity)
  }

  ghost predicate Good(s: State, top: nat) {
    Inv(s.w) && Stacked(s.w.pools, s.order, top) && FreeFrom(s.w.chunkFree, top)
  }

  /** Stacking looks only at the position of the pools in `order`. */
  lemma {:induction false} StackedFrame(pools: seq<PoolDesc>, pools': seq<PoolDesc>, order: seq<nat>, top: int)
    requires Stacked(pools, order, top) && |pools'| == |pools|
    requires forall p | 0 <= p < |pools| && p in order ::
               pools'[p].valid == pools[p].valid && pools'[p].chunkBase == pools[p].chunkBase && pools'[p].capacity == pools[p].capacity
    ensures Stacked(pools', order, top)
  {
    if order != [] {
      var p := order[|order| - 1];
      assert p in order;
      StackedFrame(pools, pools', order[..|order| - 1], top - pools[p].capacity);
    }
  }

  lemma {:induction false} StackedValid(pools: seq<PoolDesc>, order: seq<nat>, top: int, q: nat)
    requires Stacked(pools, order, top) && q in order
    ensures q < |pools| && pools[q].valid
  {
    var p := order[|order| - 1];
    if q != p { StackedValid(pools, order[..|order| - 1], top - pools[p].capacity, q); }
  }

  /** Once the free-chunk count is sufficient, the chunks picked for a new pool follow each other. */
  lemma StackedIsContiguous(s: State, top: nat, n: nat)
    requires Good(s, top) && n <= CountBits(s.w.chunkFree)
    ensures Contiguous(s.w.chunkFree, n)
  {
    CountFreeFrom(s.w.chunkFree, top);
  }

  lemma CreateStacks(s: State, t: State, top: nat, p: nat, addr: nat, itemSize: nat, n: nat)
    requires Good(s, top) && Step(s, Create(p, addr, itemSize, n), t)
    ensures Good(t, top + n)
  {
    var mask := s.w.chunkFree;
    assert SlotOk(s.w, p);
    StackedIsContiguous(s, top, n);
    CreateExact(s.w, t.w, p, addr, itemSize, n);
    CountFreeFrom(mask, top);
    PicksContiguous(mask, n);
    StampedAt(s.w.chunks, mask, p, n, top);
    if p in s.order { StackedValid(s.w.pools, s.order, top, p); }
    assert t.order[..|s.order|] == s.order;
    StackedFrame(s.w.pools, t.w.pools, s.order, top);
  }

  lemma DestroyUnstacks(s: State, t: State, top: nat, p: nat)
    requires Good(s, top) && Step(s, Destroy(p), t)
    ensures top >= s.w.pools[p].capacity && Good(t, top - s.w.pools[p].capacity)
  {
    var d := s.w.pools[p];
    assert SlotOk(s.w, p);
    DestroyKeeps(s.w, t.w, p);
    assert s.order[..|t.order|] == t.order && s.order[|t.order|] == p;
    StackedFrame(s.w.pools, t.w.pools, t.order, top - d.capacity);
  }

  lemma OtherSteps(s: State, op: Op, t: State, top: nat)
    requires Good(s, top) && Step(s, op, t) && (op.Alloc? || op.Free?)
    ensures Good(t, top)
  {
    if op.Alloc? { AllocKeeps(s.w, t.w, op.p); } else { FreeKeeps(s.w, t.w, op.p, op.i); }
    StackedFrame(s.w.pools, t.w.pools, s.order, top);
  }

  /** Every step keeps the allocator sound and its pools stacked. */
  lemma StepKeeps(s: State, op: Op, t: State, top: nat) returns (top': nat)
    requires Good(s, top) && Step(s, op, t)
    ensures Good(t, top')
  {
    match op {
      case Create(p, addr, itemSize, n) => CreateStacks(s, t, top, p, addr, itemSize, n); top' := top + n;
      case Destroy(p) => DestroyUnstacks(s, t, top, p); top' := top - s.w.pools[p].capacity;
      case Alloc(_) => OtherSteps(s, op, t, top); top' := top;
      case Free(_, _) => OtherSteps(s, op, t, top); top' := top;
    }
  }

  ghost predicate Run(states: seq<State>, ops: seq<Op>) {
    && |states| == |ops| + 1 && Fresh(states[0])
    && forall k | 0 <= k < |ops| :: Step(states[k], ops[k], states[k + 1])
  }

  lemma {:induction false} RunGood(states: seq<State>, ops: seq<Op>, k: nat) returns (top: nat)
    requires Run(states, ops) && k < |states|
    ensures Good(states[k], top)
  {
    if k == 0 {
      top := 0;
    } else {
      var t := RunGood(states, ops, k - 1);
      top := StepKeeps(states[k - 1], ops[k - 1], states[k], t);
    }
  }

  /** In every state of every such run: the allocator is sound, every pool accounts for its whole
      capacity, and a creation that passes the capacity check gets chunks that follow each other. */
  lemma EveryRun(states: seq<State>, ops: seq<Op>, k: nat, p: nat, n: nat)
    requires Run(states, ops) && k < |states| && p < MAX_POOLS
    ensures Inv(states[k].w)
    ensures states[k].w.pools[p].valid ==> |Live(states[k].w, p)| + |states[k].w.free[p]| == states[k].w.pools[p].capacity
    ensures n <= CountBits(states[k].w.chunkFree) ==> Contiguous(states[k].w.chunkFree, n)
  {
    var top := RunGood(states, ops, k);
    if states[k].w.pools[p].valid { LivePlusFree(states[k].w, p); }
    if n <= CountBits(states[k].w.chunkFree) { StackedIsContiguous(states[k], top, n); }
  }
}
