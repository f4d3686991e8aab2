/**
 Free bitmaps and the order in which repeated "lowest set bit" scans empty them.
 */
module Bitmap {

  /** Lowest set bit at or above `from`, or the length. */
  function LowBit(mask: seq<bool>, from: nat): (r: nat)
    requires from <= |mask|
    ensures from <= r <= |mask| && (r < |mask| ==> mask[r])
    ensures forall i | from <= i < r :: !mask[i]
    decreases |mask| - from
  {
    if from == |mask| || mask[from] then from else LowBit(mask, from + 1)
  }

  function CountBits(mask: seq<bool>): nat {
    if mask == [] then 0 else CountBits(mask[..|mask| - 1]) + if mask[|mask| - 1] then 1 else 0
  }

  lemma {:induction false} CountClear(mask: seq<bool>, c: nat)
    requires c < |mask| && mask[c]
    ensures CountBits(mask[c := false]) == CountBits(mask) - 1
  {
    var n := |mask| - 1;
    if c < n {
      CountClear(mask[..n], c);
      assert mask[c := false][..n] == mask[..n][c := false];
    } else {
      assert mask[c := false][..n] == mask[..n];
    }
  }

  lemma {:induction false} CountNone(mask: seq<bool>)
    requires forall i | 0 <= i < |mask| :: !mask[i]
    ensures CountBits(mask) == 0
  {
    if mask != [] { CountNone(mask[..|mask| - 1]); }
  }

  /** The mask after `n` scans, each clearing the lowest set bit. */
  function MaskAfter(mask: seq<bool>, n: nat): (r: seq<bool>)
    ensures |r| == |mask|
  {
    if n == 0 then mask
    else
      var m := MaskAfter(mask, n - 1);
      var c := LowBit(m, 0);
      if c < |m| then m[c := false] else m
  }

  /** The bit found by scan number `n`, counting from zero. */
  function Pick(mask: seq<bool>, n: nat): (r: nat)
    ensures r <= |mask|
  {
    LowBit(MaskAfter(mask, n), 0)
  }

  function Picks(mask: seq<bool>, n: nat): (r: seq<nat>)
    ensures |r| == n && forall k | 0 <= k < n :: r[k] == Pick(mask, k)
  {
    seq(n, k requires 0 <= k < n => Pick(mask, k))
  }

  /** While set bits are left, a scan finds one. */
  lemma {:induction false} PickFound(mask: seq<bool>, n: nat)
    requires n < CountBits(mask)
    ensures CountBits(MaskAfter(mask, n)) == CountBits(mask) - n && Pick(mask, n) < |mask|
  {
    if n > 0 {
      PickFound(mask, n - 1);
      CountClear(MaskAfter(mask, n - 1), Pick(mask, n - 1));
    }
    if Pick(mask, n) == |mask| { CountNone(MaskAfter(mask, n)); }
  }

  /** Scans only ever clear bits, and find them in ascending order. */
  lemma {:induction false} PickAscends(mask: seq<bool>, n: nat)
    requires n < CountBits(mask)
    ensures forall i | 0 <= i < |mask| :: MaskAfter(mask, n)[i] <==> mask[i] && i >= Pick(mask, n)
    ensures Pick(mask, n) < |mask| && mask[Pick(mask, n)] && (n > 0 ==> Pick(mask, n - 1) < Pick(mask, n))
  {
    PickFound(mask, n);
    if n > 0 {
      PickFound(mask, n - 1);
      PickAscends(mask, n - 1);
    }
  }

  lemma {:induction false} PickSpread(mask: seq<bool>, k: nat, n: nat)
    requires k <= n < CountBits(mask)
    ensures Pick(mask, k) + n - k <= Pick(mask, n) < |mask| && mask[Pick(mask, k)]
  {
    PickAscends(mask, n);
    PickFound(mask, n);
    if k < n { PickSpread(mask, k, n - 1); }
  }

  /** The `n` lowest set bits follow each other. */
  ghost predicate Contiguous(mask: seq<bool>, n: nat) {
    var lo := LowBit(mask, 0);
    n == 0 || (lo + n <= |mask| && forall i | lo <= i < lo + n :: mask[i])
  }

  /** `n` scans yield consecutive bits exactly when the `n` lowest set bits follow each other. */
  lemma PicksContiguous(mask: seq<bool>, n: nat)
    requires n <= CountBits(mask)
    ensures Contiguous(mask, n) <==> forall k | 0 <= k < n :: Pick(mask, k) == LowBit(mask, 0) + k
  {
    if Contiguous(mask, n) {
      forall k | 0 <= k < n ensures Pick(mask, k) == LowBit(mask, 0) + k {
        PickInRange(mask, n, k);
      }
    } else if forall k | 0 <= k < n :: Pick(mask, k) == LowBit(mask, 0) + k {
      PicksFill(mask, n, LowBit(mask, 0));
    }
  }

  lemma {:induction false} PickInRange(mask: seq<bool>, n: nat, k: nat)
    requires Contiguous(mask, n) && k < n <= CountBits(mask)
    ensures Pick(mask, k) == LowBit(mask, 0) + k
  {
    if k > 0 {
      PickInRange(mask, n, k - 1);
      PickAscends(mask, k - 1);
      assert MaskAfter(mask, k) == MaskAfter(mask, k - 1)[Pick(mask, k - 1) := false];
      assert MaskAfter(mask, k)[LowBit(mask, 0) + k];
    }
  }

  /** Consecutive finds are consecutive set bits. */
  lemma PicksFill(mask: seq<bool>, n: nat, lo: nat)
    requires n <= CountBits(mask) && forall k | 0 <= k < n :: Pick(mask, k) == lo + k
    ensures n == 0 || (lo + n <= |mask| && forall i | lo <= i < lo + n :: mask[i])
  {
    forall i | lo <= i < lo + n ensures i < |mask| && mask[i] {
      PickAscends(mask, i - lo);
    }
    if n > 0 { PickAscends(mask, n - 1); }
  }

  /** Exactly the bits from `top` on are set. */
  ghost predicate FreeFrom(mask: seq<bool>, top: nat) {
    top <= |mask| && forall c | 0 <= c < |mask| :: mask[c] <==> c >= top
  }

  lemma {:induction false} CountFreeFrom(mask: seq<bool>, top: nat)
    requires FreeFrom(mask, top)
    ensures CountBits(mask) == |mask| - top && LowBit(mask, 0) == top
  {
    if top == |mask| {
      CountNone(mask);
    } else {
      CountFreeFrom(mask[..|mask| - 1], top);
    }
  }

  /** The mask with bits `lo` .. `lo+n-1` set. */
  function Released(mask: seq<bool>, lo: nat, n: nat): (r: seq<bool>)
    ensures |r| == |mask|
  {
    seq(|mask|, i requires 0 <= i < |mask| => mask[i] || lo <= i < lo + n)
  }

  /** Out of order, a create after a destroy can get scattered chunks: two pools of 2 and 1 items,
      the first destroyed, then a pool of 3. */
  lemma OutOfOrderScatters(mask: seq<bool>)
    requires FreeFrom(mask, 0) && |mask| > 3
    ensures var gone := Released(MaskAfter(MaskAfter(mask, 2), 1), 0, 2);
            !Contiguous(gone, 3) && Picks(gone, 3) == [0, 1, 3]
  {
    TakeOne(mask, 0);
    TakeOne(MaskAfter(mask, 1), 1);
    assert MaskAfter(MaskAfter(mask, 1), 1) == MaskAfter(mask, 2) by { assert MaskAfter(MaskAfter(mask, 1), 0) == MaskAfter(mask, 1); }
    TakeOne(MaskAfter(mask, 2), 2);
    Hole(Released(MaskAfter(MaskAfter(mask, 2), 1), 0, 2));
  }

  lemma TakeOne(mask: seq<bool>, top: nat)
    requires FreeFrom(mask, top) && top < |mask|
    ensures FreeFrom(MaskAfter(mask, 1), top + 1)
  {
    assert MaskAfter(mask, 0) == mask;
    ScanFinds(mask, 0, top);
  }

  lemma Hole(gone: seq<bool>)
    requires |gone| > 3 && forall i | 0 <= i < |gone| :: gone[i] <==> i != 2
    ensures !Contiguous(gone, 3) && Picks(gone, 3) == [0, 1, 3]
  {
    ScanFinds(gone, 0, 0);
    ScanFinds(gone, 1, 1);
    ScanFinds(gone, 2, 3);
    assert !gone[2];
  }

  lemma ScanFinds(mask: seq<bool>, n: nat, c: nat)
    requires c < |mask| && MaskAfter(mask, n)[c] && forall i | 0 <= i < c :: !MaskAfter(mask, n)[i]
    ensures Pick(mask, n) == c && MaskAfter(mask, n + 1) == MaskAfter(mask, n)[c := false]
  {
  }
}
