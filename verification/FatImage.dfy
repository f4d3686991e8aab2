/**
 The disk image as bytes, seen as a metadata area followed by fixed-size clusters.
 */
module FatImage {
  import opened Values
  import opened Arith
  import opened FatTable

  /** Byte position of cluster `c` when the data area starts at `base`. */
  function Position(base: nat, size: nat, c: nat): (r: nat)
    requires c >= FIRST
    ensures r >= base
  {
    base + (c - FIRST) * size
  }

  /** `n` clusters of `size` bytes fit behind `base`. */
  predicate Fits(img: seq<byte>, base: nat, size: nat, n: nat) {
    base + n * size <= |img|
  }

  lemma PositionFits(img: seq<byte>, base: nat, size: nat, n: nat, c: nat)
    requires Fits(img, base, size, n) && FIRST <= c < n + FIRST
    ensures Position(base, size, c) + size <= base + n * size <= |img|
  {
    MulLe(c - FIRST + 1, n, size);
    assert (c - FIRST + 1) * size == (c - FIRST) * size + size;
  }

  /** Contents of cluster `c`. */
  function ClusterBytes(img: seq<byte>, base: nat, size: nat, n: nat, c: nat): (r: seq<byte>)
    requires Fits(img, base, size, n) && FIRST <= c < n + FIRST
    ensures |r| == size
  {
    PositionFits(img, base, size, n, c);
    img[Position(base, size, c)..][..size]
  }

  /** All cluster contents, indexed by cluster number; numbers 0 and 1 have none. */
  function View(img: seq<byte>, base: nat, size: nat, n: nat): (v: seq<seq<byte>>)
    requires Fits(img, base, size, n)
    ensures |v| == n + FIRST
    ensures forall c | FIRST <= c < |v| :: v[c] == ClusterBytes(img, base, size, n, c) && |v[c]| == size
  {
    seq(n + FIRST, c requires 0 <= c < n + FIRST =>
      if c < FIRST then [] else ClusterBytes(img, base, size, n, c))
  }

  /** The clusters depend only on the bytes from `base` on. */
  lemma ViewSame(x: seq<byte>, y: seq<byte>, base: nat, size: nat, n: nat)
    requires Fits(x, base, size, n) && |x| == |y| && forall a | base <= a < |x| :: x[a] == y[a]
    ensures View(x, base, size, n) == View(y, base, size, n)
  {
    forall c | FIRST <= c < n + FIRST ensures ClusterBytes(x, base, size, n, c) == ClusterBytes(y, base, size, n, c) {
      PositionFits(x, base, size, n, c);
    }
  }

  /** Overwrites `data` at byte position `at`. */
  function Overwrite(img: seq<byte>, at: nat, data: seq<byte>): (r: seq<byte>)
    requires at + |data| <= |img|
    ensures |r| == |img|
  {
    seq(|img|, k requires 0 <= k < |img| => if at <= k < at + |data| then data[k - at] else img[k])
  }

  /** A buffer that held `was` after a read at byte position `at`: a read that starts or ends behind
      the image leaves the rest of the buffer alone. */
  function ReadAt(img: seq<byte>, at: nat, was: seq<byte>): (r: seq<byte>)
    ensures |r| == |was|
    ensures at + |was| <= |img| ==> r == img[at..][..|was|]
    ensures at >= |img| ==> r == was
  {
    if at >= |img| then was
    else if at + |was| <= |img| then img[at..][..|was|]
    else img[at..] + was[|img| - at..]
  }

  /** The image after a write at `at` that ends behind it; a gap is filled with zeros. */
  function WriteBeyond(img: seq<byte>, at: nat, data: seq<byte>): seq<byte>
    requires at + |data| > |img|
  {
    if |img| < at then img + seq(at - |img|, _ => 0) + data else img[..at] + data
  }

  /** Two adjacent slices are one slice. */
  lemma SliceMore(img: seq<byte>, from: nat, done: nat, size: nat)
    requires from + done + size <= |img|
    ensures img[from..][..done] + img[from + done..][..size] == img[from..][..done + size]
  {
  }

  /** Two adjacent overwrites are one overwrite. */
  lemma OverwriteExtends(img: seq<byte>, at: nat, buf: seq<byte>, done: nat, size: nat)
    requires done + size <= |buf| && at + done + size <= |img|
    ensures Overwrite(Overwrite(img, at, buf[..done]), at + done, buf[done..done + size])
         == Overwrite(img, at, buf[..done + size])
  {
  }

  lemma PositionsApart(base: nat, size: nat, c: nat, d: nat)
    requires FIRST <= c < d
    ensures Position(base, size, c) + size <= Position(base, size, d)
  {
    MulLe(c - FIRST + 1, d - FIRST, size);
    assert (c - FIRST + 1) * size == (c - FIRST) * size + size;
  }

  /** Writing one cluster changes that cluster's contents and no other byte of the image. */
  lemma OverwriteCluster(img: seq<byte>, base: nat, size: nat, n: nat, c: nat, data: seq<byte>)
    requires Fits(img, base, size, n) && FIRST <= c < n + FIRST && |data| == size
    ensures Position(base, size, c) + size <= base + n * size
    ensures var r := Overwrite(img, Position(base, size, c), data);
            && View(r, base, size, n) == View(img, base, size, n)[c := data]
            && r[..base] == img[..base]
            && r[base + n * size..] == img[base + n * size..]
  {
    PositionFits(img, base, size, n, c);
    var r := Overwrite(img, Position(base, size, c), data);
    forall d | FIRST <= d < n + FIRST
      ensures ClusterBytes(r, base, size, n, d) == if d == c then data else ClusterBytes(img, base, size, n, d)
    {
      PositionFits(img, base, size, n, d);
      if d < c {
        PositionsApart(base, size, d, c);
      } else if c < d {
        PositionsApart(base, size, c, d);
      }
    }
  }

  /** Contents of a file: its clusters in chain order. */
  function FileBytes(v: seq<seq<byte>>, chain: seq<nat>): (r: seq<byte>)
    requires forall j | 0 <= j < |chain| :: chain[j] < |v|
  {
    if chain == [] then []
    else FileBytes(v, chain[..|chain| - 1]) + v[chain[|chain| - 1]]
  }

  lemma {:induction false} FileBytesSame(v: seq<seq<byte>>, v': seq<seq<byte>>, chain: seq<nat>)
    requires |v| == |v'|
    requires forall j | 0 <= j < |chain| :: chain[j] < |v| && v[chain[j]] == v'[chain[j]]
    ensures FileBytes(v, chain) == FileBytes(v', chain)
  {
    if chain != [] { FileBytesSame(v, v', chain[..|chain| - 1]); }
  }

  lemma FileBytesAppend(v: seq<seq<byte>>, chain: seq<nat>, c: nat)
    requires c < |v| && forall j | 0 <= j < |chain| :: chain[j] < |v|
    ensures FileBytes(v, chain + [c]) == FileBytes(v, chain) + v[c]
  {
    assert (chain + [c])[..|chain|] == chain;
  }

  lemma {:induction false} FileBytesLength(v: seq<seq<byte>>, chain: seq<nat>, size: nat)
    requires forall j | 0 <= j < |chain| :: chain[j] < |v| && |v[chain[j]]| == size
    ensures |FileBytes(v, chain)| == |chain| * size
  {
    if chain != [] {
      FileBytesLength(v, chain[..|chain| - 1], size);
      assert |chain| * size == (|chain| - 1) * size + size;
    }
  }

  /** One more cluster of a file: the front of the new cluster extends the written prefix. */
  lemma WriteExtends(v: seq<seq<byte>>, v': seq<seq<byte>>, p: seq<nat>, c: nat, buf: seq<byte>, done: nat, chunk: nat, size: nat)
    requires |v'| == |v| && c < |v| && c !in p
    requires forall j | 0 <= j < |p| :: p[j] < |v| && |v[p[j]]| == size
    requires done + chunk <= |buf| && chunk <= size && done == |p| * size
    requires FileBytes(v, p) == buf[..done]
    requires v' == v[c := v'[c]] && |v'[c]| == size && v'[c][..chunk] == buf[done..done + chunk]
    ensures |FileBytes(v', p + [c])| == (|p| + 1) * size
    ensures FileBytes(v', p + [c])[..done + chunk] == buf[..done + chunk]
  {
    FileBytesSame(v, v', p);
    FileBytesAppend(v', p, c);
    FileBytesLength(v', p + [c], size);
    var f := FileBytes(v', p + [c]);
    assert f == buf[..done] + v'[c];
    assert f[..done + chunk] == buf[..done] + v'[c][..chunk];
    assert buf[..done + chunk] == buf[..done] + buf[done..done + chunk];
  }
}
