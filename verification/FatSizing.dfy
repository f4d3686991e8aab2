/**
 Choosing the size and width of the file allocation table for a new disk: the search in the
 `create` command, and whether the disk it makes is opened with the same geometry.
 */
module FatSizing {
  import opened Arith
  import opened FatTable
  import opened FatChains
  import opened FatLayout

  const INT_MAX := 0x7FFF_FFFF
  const MIN_CLUSTERS_12 := 1
  const MIN_CLUSTERS_16 := 4085

  /** The Align macro; `n` is a power of two. */
  function Align(x: nat, n: nat): (r: nat)
    requires n > 0
    ensures x <= r < x + n
  {
    AlignBounds(x, n);
    (x + n - 1) / n * n
  }

  lemma AlignBounds(x: nat, n: nat)
    requires n > 0
    ensures x <= (x + n - 1) / n * n < x + n
  {
    var q, m := (x + n - 1) / n, (x + n - 1) % n;
    assert q * n == x + n - 1 - m;
  }

  /** C division: rounds towards zero. */
  function Quotient(a: int, b: nat): int
    requires b > 0
  {
    if a >= 0 then a / b else -((-a) / b)
  }

  /** The checked arguments of the `create` command, after alignment of the sector count. */
  datatype Request = Request(
    sectorSize: nat, sectorCount: nat, sectorsPerCluster: nat, tableCount: nat,
    rootSectors: nat, reserved: nat, width: Request12or16)
  {
    /** What the command checks before the search; the search itself works on C ints, so the
        largest sum it can form has to fit. */
    predicate Checked() {
      && IsPow2(sectorSize) && 512 <= sectorSize <= 32768 && 0 < sectorCount
      && IsPow2(sectorsPerCluster) && 1 <= sectorsPerCluster <= 128
      && 1 <= tableCount && 1 <= reserved
      && sectorCount <= INT_MAX
      && rootSectors + reserved + 256 * tableCount + sectorsPerCluster <= INT_MAX
    }

    /** Sectors in front of the data area with a table of `m` sectors. */
    function Used(m: nat): nat { rootSectors + reserved + m * tableCount }

    function Clusters(m: nat): int
      requires sectorsPerCluster > 0
    {
      Quotient(sectorCount - Align(Used(m), sectorsPerCluster), sectorsPerCluster)
    }
  }

  datatype Request12or16 = Any | Only12 | Only16

  function Capacity12(fatSize: nat): int { fatSize / 3 * 2 - FIRST }
  function Capacity16(fatSize: nat): int { fatSize / 2 - FIRST }

  datatype Verdict = Enlarge | TooMany | TooFew | Fits(width: Width)

  /** One pass of the search: what a table of `fatSize` bytes means for `clusters` clusters. */
  function Judge(width: Request12or16, fatSize: nat, clusters: int): Verdict {
    var cap12, cap16 := Capacity12(fatSize), Capacity16(fatSize);
    var crowded12 := clusters > MaxClusters(Fat12) && cap12 > MaxClusters(Fat12);
    if crowded12 && width.Only12? then TooMany
    else if clusters > MaxClusters(Fat16) && cap16 > MaxClusters(Fat16) then TooMany
    else if !width.Only16? && !crowded12 && clusters <= cap12 then
      if clusters < MIN_CLUSTERS_12 then TooFew else Fits(Fat12)
    else if !width.Only12? && clusters <= cap16 then
      if width.Only16? && clusters < MIN_CLUSTERS_16 then TooFew else Fits(Fat16)
    else Enlarge
  }

  function JudgeSectors(r: Request, m: nat): Verdict
    requires r.Checked()
  {
    Judge(r.width, m * r.sectorSize, r.Clusters(m))
  }

  /** Grows the table one sector at a time until it is decided; `m` is the smallest size that
      decides, and the search ends after at most 256 passes. */
  method SizeTable(r: Request) returns (m: nat, clusters: int, v: Verdict)
    requires r.Checked()
    ensures 1 <= m <= 256 && clusters == r.Clusters(m) && v == JudgeSectors(r, m) && !v.Enlarge?
    ensures forall k: nat | 1 <= k < m :: JudgeSectors(r, k).Enlarge?
  {
    var sectorsUsed, fatSize := r.rootSectors + r.reserved, 0;
    m := 0;
    while true
      invariant 0 <= m && fatSize == m * r.sectorSize && sectorsUsed == r.Used(m)
      invariant fatSize < LARGE
      invariant forall k: nat | 1 <= k <= m :: JudgeSectors(r, k).Enlarge?
      decreases LARGE - fatSize
    {
      PassesBounded(m, r.sectorSize, r.tableCount);
      m := m + 1;
      sectorsUsed := sectorsUsed + r.tableCount;
      fatSize := fatSize + r.sectorSize;
      assert sectorsUsed + r.sectorsPerCluster <= INT_MAX && fatSize <= INT_MAX;
      clusters := Quotient(r.sectorCount - Align(sectorsUsed, r.sectorsPerCluster), r.sectorsPerCluster);
      v := Judge(r.width, fatSize, clusters);
      if !v.Enlarge? {
        break;
      }
      LargeDecides(r.width, fatSize, clusters);
    }
  }

  /** From this size on a table has room for every cluster count that is not refused. */
  const LARGE := 131054

  lemma LargeDecides(width: Request12or16, fatSize: nat, clusters: int)
    requires Judge(width, fatSize, clusters).Enlarge?
    ensures fatSize < LARGE
  {
  }

  lemma PassesBounded(m: nat, sectorSize: nat, tableCount: nat)
    requires sectorSize >= 512 && m * sectorSize < LARGE
    ensures m < 256 && m * tableCount + tableCount <= 256 * tableCount
    ensures (m + 1) * sectorSize == m * sectorSize + sectorSize
    ensures (m + 1) * tableCount == m * tableCount + tableCount
  {
    if m >= 256 {
      MulBoth(256, m, 512, sectorSize);
    }
    MulBoth(m + 1, 256, tableCount, tableCount);
  }

  /** A table that is accepted: the width follows from the cluster count alone and honours the
      request, every entry 0 .. clusters+1 lies inside the table, and no cluster number can be
      taken for a BAD or end mark. */
  lemma AcceptedTable(width: Request12or16, fatSize: nat, clusters: int)
    requires fatSize >= 512 && Judge(width, fatSize, clusters).Fits?
    ensures var w := Judge(width, fatSize, clusters).width;
            && 1 <= clusters <= MaxClusters(w)
            && (w.Fat12? <==> clusters <= 4084)
            && (width.Only12? ==> w.Fat12?) && (width.Only16? ==> w.Fat16?)
            && HoldsAll(w, fatSize, clusters + FIRST)
            && forall c: nat | FIRST <= c < clusters + FIRST :: !IsEoc(w, c)
  {
    var w := Judge(width, fatSize, clusters).width;
    assert Capacity16(fatSize) <= Capacity12(fatSize);
    var last := clusters + FIRST - 1;
    if w.Fat12? {
      var q := fatSize / 3;
      assert last <= 2 * q - 1;
      assert last / 2 <= q - 1;
    }
  }

  function MinClusters(w: Width): nat { if w.Fat12? then MIN_CLUSTERS_12 else MIN_CLUSTERS_16 }

  /** The request allows this width, the count is in its range, and the table has the capacity. */
  predicate Suits(width: Request12or16, fatSize: nat, clusters: int, w: Width) {
    && (width.Only12? ==> w.Fat12?) && (width.Only16? ==> w.Fat16?)
    && MinClusters(w) <= clusters <= MaxClusters(w)
    && clusters <= if w.Fat12? then Capacity12(fatSize) else Capacity16(fatSize)
  }

  /** The nested tests accept a width exactly when it suits; at most one width ever does. */
  lemma FitsExactly(width: Request12or16, fatSize: nat, clusters: int, w: Width)
    requires fatSize >= 512
    ensures Judge(width, fatSize, clusters) == Fits(w) <==> Suits(width, fatSize, clusters, w)
  {
    assert Capacity16(fatSize) <= Capacity12(fatSize);
  }

  // ---- the same disk, opened again ----

  /** FatDisk::GetClusterCount does not align the metadata as the search does. */
  function CountedOnOpen(sectorCount: nat, used: nat, spc: nat): nat
    requires spc > 0 && used <= sectorCount
  {
    (sectorCount - used) / spc
  }

  /** Opening the disk finds the planned number of clusters exactly when the alignment gap is
      covered by the sectors left over; otherwise it finds one cluster more. */
  lemma CountsAgree(sectorCount: nat, used: nat, spc: nat)
    requires spc > 0 && Align(used, spc) <= sectorCount
    ensures var planned, gap := (sectorCount - Align(used, spc)) / spc, Align(used, spc) - used;
            var found := CountedOnOpen(sectorCount, used, spc);
            && (found == planned <==> gap <= (sectorCount - used) % spc)
            && (found == planned || found == planned + 1)
  {
    var a, gap := sectorCount - used, Align(used, spc) - used;
    var q, m := a / spc, a % spc;
    assert a == q * spc + m;
    if gap <= m {
      DivUnique(a - gap, spc, q, m - gap);
    } else {
      assert a - gap == (q - 1) * spc + (spc + m - gap);
      if q == 0 { assert a - gap >= 0; }
      DivUnique(a - gap, spc, q - 1, spc + m - gap);
    }
  }

  /** On a disk of whole clusters the counts always agree. */
  lemma AlignedDiskAgrees(clusters: nat, used: nat, spc: nat)
    requires spc > 0 && Align(used, spc) <= clusters * spc
    ensures CountedOnOpen(clusters * spc, used, spc) == (clusters * spc - Align(used, spc)) / spc
  {
    var n := (used + spc - 1) / spc;
    var gap := n * spc - used;
    assert clusters * spc - used == (clusters - n) * spc + gap;
    DivUnique(clusters * spc - used, spc, clusters - n, gap);
    CountsAgree(clusters * spc, used, spc);
  }

  /** Without alignment a disk can be laid out as FAT12 and opened as FAT16: 8209 sectors, two
      per cluster, one reserved, two tables, a root directory of 14 sectors. */
  lemma OpenedWithAnotherWidth()
    ensures var r := Request(512, 8209, 2, 2, 14, 1, Any);
            && r.Checked() && JudgeSectors(r, 12) == Fits(Fat12) && r.Clusters(12) == 4084
            && (forall k: nat | 1 <= k < 12 :: JudgeSectors(r, k).Enlarge?)
            && CountedOnOpen(8209, r.Used(12), 2) == 4085
  {
    var r := Request(512, 8209, 2, 2, 14, 1, Any);
    assert r.Used(12) == 39;
    assert Align(39, 2) == 40;
    forall k: nat | 1 <= k < 12 ensures JudgeSectors(r, k).Enlarge? {
      assert r.Used(k) == 15 + 2 * k;
      assert Align(15 + 2 * k, 2) == 16 + 2 * k;
    }
  }

  /** The layout that an accepted table plans. */
  function Plan(r: Request, m: nat, rootDirCapacity: nat): Bpb {
    Bpb(r.sectorSize, r.sectorsPerCluster, r.reserved, r.tableCount, rootDirCapacity, r.sectorCount, m)
  }

  /** The planned layout is valid, with the planned number of clusters, when the counts agree and
      its size fits 32 bits. Whether the disk gets that layout is another matter. */
  lemma PlanIsValid(r: Request, m: nat, rootDirCapacity: nat)
    requires r.Checked() && m >= 1 && JudgeSectors(r, m).Fits?
    requires CeilDiv32(rootDirCapacity * DIRENTRY_SIZE, r.sectorSize) == r.rootSectors
    requires r.sectorCount * r.sectorSize < WORD32
    requires Align(r.Used(m), r.sectorsPerCluster) - r.Used(m) <= (r.sectorCount - r.Used(m)) % r.sectorsPerCluster
    ensures var b := Plan(r, m, rootDirCapacity);
            && b.Valid() && b.ClusterCount() == r.Clusters(m) && b.TableWidth() == JudgeSectors(r, m).width
  {
    var b := Plan(r, m, rootDirCapacity);
    var used, spc := r.Used(m), r.sectorsPerCluster;
    assert b.MetaSectors() == used;
    MulBoth(1, m, 512, r.sectorSize);
    AcceptedTable(r.width, m * r.sectorSize, r.Clusters(m));
    PositiveClusters(r.sectorCount, Align(used, spc), spc);
    CountsAgree(r.sectorCount, used, spc);
    BytesIsProduct(b, r.sectorCount);
    BytesIsProduct(b, m);
    MulBoth(r.sectorSize, 32768, spc, 128);
  }

  lemma PositiveClusters(sectorCount: nat, aligned: nat, spc: nat)
    requires spc > 0 && Quotient(sectorCount - aligned, spc) >= 1
    ensures aligned <= sectorCount
  {
    if sectorCount < aligned { NegativeQuotient(sectorCount - aligned, spc); }
  }

  lemma NegativeQuotient(a: int, spc: nat)
    requires spc > 0 && a < 0
    ensures Quotient(a, spc) <= 0
  {
    var x := (-a) / spc;
    assert x >= 0;
  }
}
