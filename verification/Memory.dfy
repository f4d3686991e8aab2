/**
 memmove: copying between possibly overlapping parts of one buffer.
 */
module Memory {

  /** `count` elements from `src` on now stand at `dst`; everything else is as it was. */
  function Moved<T>(a: seq<T>, dst: nat, src: nat, count: nat): (r: seq<T>)
    requires dst + count <= |a| && src + count <= |a|
    ensures |r| == |a|
  {
    a[..dst] + a[src..src + count] + a[dst + count..]
  }

  /** Copies upwards when the destination overlaps from below, downwards when it overlaps from
      above, so no element is overwritten before it has been copied. */
  method MemMove<T>(a: array<T>, dst: nat, src: nat, count: nat)
    requires dst + count <= a.Length && src + count <= a.Length
    modifies a
    ensures a[..] == Moved(old(a[..]), dst, src, count)
  {
    if src == dst {
      assert a[..] == Moved(a[..], dst, src, count);
      return;
    }
    if src < dst && src + count > dst {
      CopyDown(a, dst, src, count);
    } else {
      CopyUp(a, dst, src, count);  // also when the parts do not overlap, as memcpy does
    }
  }

  method CopyUp<T>(a: array<T>, dst: nat, src: nat, count: nat)
    requires dst + count <= a.Length && src + count <= a.Length
    requires dst < src || src + count <= dst
    modifies a
    ensures a[..] == Moved(old(a[..]), dst, src, count)
  {
    for i := 0 to count
      invariant forall k | dst <= k < dst + i :: a[k] == old(a[src + (k - dst)])
      invariant forall k | 0 <= k < a.Length && !(dst <= k < dst + i) :: a[k] == old(a[k])
    {
      a[dst + i] := a[src + i];
    }
    IsMoved(old(a[..]), a[..], dst, src, count);
  }

  method CopyDown<T>(a: array<T>, dst: nat, src: nat, count: nat)
    requires dst + count <= a.Length && src + count <= a.Length && src < dst
    modifies a
    ensures a[..] == Moved(old(a[..]), dst, src, count)
  {
    for i := count downto 0
      invariant forall k | dst + i <= k < dst + count :: a[k] == old(a[src + (k - dst)])
      invariant forall k | 0 <= k < a.Length && !(dst + i <= k < dst + count) :: a[k] == old(a[k])
    {
      a[dst + i] := a[src + i];
    }
    IsMoved(old(a[..]), a[..], dst, src, count);
  }

  lemma IsMoved<T>(a: seq<T>, r: seq<T>, dst: nat, src: nat, count: nat)
    requires |r| == |a| && dst + count <= |a| && src + count <= |a|
    requires forall k | dst <= k < dst + count :: r[k] == a[src + (k - dst)]
    requires forall k | 0 <= k < |a| && !(dst <= k < dst + count) :: r[k] == a[k]
    ensures r == Moved(a, dst, src, count)
  {
  }
}
