/**
 Layout of a FAT volume: the sizes derived from the BIOS parameter block, where the areas
 of the image lie, and the directory entry fields that locate a file.
 */
module FatLayout {
  import opened Values
  import opened Arith
  import opened FatTable
  import opened FatChains
  import opened FatImage

  const WORD32 := 0x1_0000_0000
  const DIRENTRY_SIZE := 32

  /** The CeilDiv macro on 32-bit unsigned operands: the sum wraps. */
  function CeilDiv32(x: nat, y: nat): (r: nat)
    requires y > 0
  {
    ((x + y - 1) % WORD32) / y
  }

  /** The IsPow2 macro: powers of two, and zero. */
  predicate IsPow2(n: nat) { n <= 1 || (n % 2 == 0 && IsPow2(n / 2)) }

  /** The part of the BIOS parameter block that fixes the layout of the disk. */
  datatype Bpb = Bpb(
    sectorSize: nat,
    sectorsPerCluster: nat,
    reservedSectorCount: nat,
    tableCount: nat,
    rootDirCapacity: nat,
    sectorCount: nat,
    sectorsPerTable: nat)
  {
    /** Size in bytes of `n` sectors. */
    function Bytes(n: nat): nat { if n == 0 then 0 else Bytes(n - 1) + sectorSize }
    function ClusterSize(): nat { sectorSize * sectorsPerCluster }
    function RootSectors(): nat
      requires sectorSize > 0
    {
      CeilDiv32(rootDirCapacity * DIRENTRY_SIZE, sectorSize)
    }
    function RootStart(): nat { reservedSectorCount + sectorsPerTable * tableCount }
    function MetaSectors(): nat
      requires sectorSize > 0
    {
      RootStart() + RootSectors()
    }
    function ClusterCount(): nat
      requires sectorSize > 0 && sectorsPerCluster > 0 && MetaSectors() <= sectorCount
    {
      (sectorCount - MetaSectors()) / sectorsPerCluster
    }
    function DataStart(): nat
      requires sectorSize > 0
    {
      Bytes(MetaSectors())
    }
    function DataEnd(): nat
      requires sectorSize > 0 && sectorsPerCluster > 0 && MetaSectors() <= sectorCount
    {
      DataStart() + ClusterCount() * ClusterSize()
    }
    function TableBytes(): nat { Bytes(sectorsPerTable) }
    function CopySector(n: nat): nat { reservedSectorCount + n * sectorsPerTable }
    function CopyStart(n: nat): nat { Bytes(CopySector(n)) }
    function DiskSize(): nat { Bytes(sectorCount) }

    /** IsFat12. */
    function TableWidth(): Width
      requires sectorSize > 0 && sectorsPerCluster > 0 && MetaSectors() <= sectorCount
    {
      if ClusterCount() <= MaxClusters(Fat12) then Fat12 else Fat16
    }

    /** A layout whose sizes fit 32 bits and whose table has an entry for every cluster. */
    ghost predicate Valid() {
      && sectorSize > 0 && sectorsPerCluster > 0
      && MetaSectors() <= sectorCount
      && DiskSize() < WORD32 && ClusterSize() < WORD32
      && ClusterCount() <= MaxClusters(Fat16)
      && HoldsAll(TableWidth(), TableBytes(), ClusterCount() + FIRST)
    }
  }

  lemma {:induction false} BytesIsProduct(b: Bpb, n: nat)
    ensures b.Bytes(n) == n * b.sectorSize
  {
    if n > 0 {
      BytesIsProduct(b, n - 1);
      assert n * b.sectorSize == (n - 1) * b.sectorSize + b.sectorSize;
    }
  }

  lemma {:induction false} BytesAdd(b: Bpb, m: nat, n: nat)
    ensures b.Bytes(m + n) == b.Bytes(m) + b.Bytes(n)
  {
    if n > 0 { BytesAdd(b, m, n - 1); }
  }

  lemma BytesLe(b: Bpb, m: nat, n: nat)
    requires m <= n
    ensures b.Bytes(m) <= b.Bytes(n)
    ensures m < n ==> b.Bytes(m) + b.sectorSize <= b.Bytes(n)
  {
    BytesAdd(b, m, n - m);
  }

  lemma MulAssoc(n: nat, k: nat, m: nat)
    ensures (n * k) * m == n * (m * k)
  {
  }

  lemma DivTimes(d: nat, k: nat)
    requires k > 0
    ensures (d / k) * k <= d
  {
  }

  lemma ClustersFitDisk(b: Bpb)
    requires b.Valid()
    ensures b.ClusterSize() > 0
    ensures b.DataStart() <= b.DataEnd() <= b.DiskSize()
  {
    var n, spc := b.ClusterCount(), b.sectorsPerCluster;
    var used := n * spc;
    DivTimes(b.sectorCount - b.MetaSectors(), spc);
    BytesLe(b, b.MetaSectors() + used, b.sectorCount);
    BytesAdd(b, b.MetaSectors(), used);
    assert b.Bytes(used) == n * b.ClusterSize() by {
      BytesIsProduct(b, used);
      MulAssoc(n, spc, b.sectorSize);
    }
    MulLe(1, b.sectorSize, spc);
  }

  lemma SectorsInDisk(b: Bpb, start: nat, count: nat)
    requires start + count <= b.sectorCount
    ensures b.Bytes(start) + b.Bytes(count) <= b.DiskSize()
  {
    BytesAdd(b, start, count);
    BytesLe(b, start + count, b.sectorCount);
  }

  /** Where a sector is looked for: the product is formed in 32 bits. */
  function SeekAddress(b: Bpb, index: nat): nat { b.Bytes(index) % WORD32 }

  /** The bounds test; the sum is formed in 32 bits too. */
  predicate SectorTest(b: Bpb, index: nat) {
    (SeekAddress(b, index) + b.sectorSize) % WORD32 <= b.DiskSize()
  }

  /** The test passes exactly for the sectors of the disk as long as neither product nor sum wraps. */
  lemma SectorInDisk(b: Bpb, index: nat)
    requires b.sectorSize > 0 && b.DiskSize() < WORD32
    ensures index < b.sectorCount ==>
              SectorTest(b, index) && SeekAddress(b, index) == b.Bytes(index) && b.Bytes(index) + b.sectorSize <= b.DiskSize()
    ensures b.Bytes(index) + b.sectorSize < WORD32 ==> (SectorTest(b, index) <==> index < b.sectorCount)
  {
    if index < b.sectorCount {
      BytesLe(b, index, b.sectorCount);
    } else {
      BytesLe(b, b.sectorCount, index);
    }
    if b.Bytes(index) + b.sectorSize < WORD32 { NoWrap(b.Bytes(index), b.sectorSize); }
  }

  lemma NoWrap(a: nat, n: nat)
    requires a + n < WORD32
    ensures a % WORD32 == a && (a % WORD32 + n) % WORD32 == a + n
  {
  }

  lemma SumWraps(a: nat, n: nat)
    ensures (a % WORD32 + n) % WORD32 == (a + n) % WORD32
  {
  }

  lemma ProductWraps(size: nat, n: nat, q: nat)
    requires size > 0 && size * q == WORD32
    ensures q > 0 && (n * size) % WORD32 == (n % q) * size
  {
    var k, r := n / q, n % q;
    assert n == k * q + r;
    assert n * size == k * (size * q) + r * size;
    MulBoth(r + 1, q, size, size);
    DivUnique(n * size, WORD32, k, r * size);
  }

  /** For every index, with a sector size that divides 2^32: counting the sectors of 4 GB round and
      round, the test passes exactly for the sectors of the disk and for the last one before each
      round begins again. */
  lemma SectorTestExactly(b: Bpb, index: nat, q: nat)
    requires b.sectorSize > 0 && b.sectorSize * q == WORD32 && b.DiskSize() < WORD32
    ensures q > 0 && (SectorTest(b, index) <==> index % q < b.sectorCount || (index + 1) % q == 0)
  {
    SumWraps(b.Bytes(index), b.sectorSize);
    BytesIsProduct(b, index + 1);
    BytesIsProduct(b, b.sectorCount);
    ProductWraps(b.sectorSize, index + 1, q);
    MulOrder((index + 1) % q, b.sectorCount, b.sectorSize);
    NextRemainder(index, q);
  }

  lemma MulOrder(m: nat, n: nat, k: nat)
    requires k > 0
    ensures m * k <= n * k <==> m <= n
  {
    if m <= n {
      MulLe(m, n, k);
    } else {
      MulLe(n + 1, m, k);
      assert (n + 1) * k == n * k + k;
    }
  }

  lemma NextRemainder(n: nat, q: nat)
    requires q > 0
    ensures (n + 1) % q == if n % q == q - 1 then 0 else n % q + 1
  {
    var k, r := n / q, n % q;
    if r == q - 1 {
      assert n + 1 == (k + 1) * q;
      DivUnique(n + 1, q, k + 1, 0);
    } else {
      DivUnique(n + 1, q, k, r + 1);
    }
  }

  /** With 512-byte sectors, sector 2^23 is read from the start of the image. */
  lemma WrappedSector(b: Bpb)
    requires b.sectorSize == 512
    ensures SeekAddress(b, 0x80_0000) == 0
  {
    BytesIsProduct(b, 0x80_0000);
  }

  /** And sector 2^23 - 1, whose address does not wrap, passes the test on every disk. */
  lemma LastSectorPasses(b: Bpb)
    requires b.sectorSize == 512
    ensures SeekAddress(b, 0x7F_FFFF) == 0xFFFF_FE00 && SectorTest(b, 0x7F_FFFF)
  {
    BytesIsProduct(b, 0x7F_FFFF);
  }

  lemma CopiesInOrder(b: Bpb, m: nat, n: nat)
    ensures b.CopySector(m + 1) == b.CopySector(m) + b.sectorsPerTable
    ensures b.CopyStart(m + 1) == b.CopyStart(m) + b.TableBytes()
    ensures m <= n ==> b.CopyStart(m) <= b.CopyStart(n)
    ensures m < n ==> b.CopyStart(m) + b.TableBytes() <= b.CopyStart(n)
    ensures m < n ==> b.CopySector(m) + b.sectorsPerTable <= b.CopySector(n)
  {
    assert (m + 1) * b.sectorsPerTable == m * b.sectorsPerTable + b.sectorsPerTable;
    BytesAdd(b, b.CopySector(m), b.sectorsPerTable);
    if m <= n {
      MulLe(m, n, b.sectorsPerTable);
      BytesLe(b, b.CopySector(m), b.CopySector(n));
    }
    if m < n {
      MulLe(m + 1, n, b.sectorsPerTable);
      BytesLe(b, b.CopySector(m + 1), b.CopySector(n));
    }
  }

  lemma CopiesInMeta(b: Bpb)
    requires b.Valid()
    ensures b.CopySector(b.tableCount) == b.RootStart() <= b.MetaSectors()
    ensures b.CopyStart(b.tableCount) <= b.DataStart() <= b.DiskSize()
  {
    ClustersFitDisk(b);
    BytesLe(b, b.RootStart(), b.MetaSectors());
  }

  /** The n-th copy of the table on an image. */
  ghost function TableCopy(b: Bpb, img: seq<byte>, n: nat): (c: seq<byte>)
    requires b.Valid() && |img| == b.DiskSize() && n < b.tableCount
    ensures |c| == b.TableBytes()
  {
    CopiesInOrder(b, n, b.tableCount);
    CopiesInMeta(b);
    img[b.CopyStart(n)..][..b.TableBytes()]
  }

  /** The images differ at most in bytes `lo` .. `hi`-1. */
  ghost predicate SameOutside(x: seq<byte>, y: seq<byte>, lo: nat, hi: nat) {
    |x| == |y| && forall a | 0 <= a < |x| && !(lo <= a < hi) :: x[a] == y[a]
  }

  /** Writing copy `n` fixes that copy and leaves the earlier ones and all other areas. */
  lemma WriteCopy(b: Bpb, img0: seq<byte>, img: seq<byte>, n: nat, data: seq<byte>)
    requires b.Valid() && |img| == b.DiskSize() && n < b.tableCount && |data| == b.TableBytes()
    requires SameOutside(img0, img, b.CopyStart(0), b.CopyStart(n))
    ensures b.CopyStart(n) + |data| <= |img|
    ensures var r := Overwrite(img, b.CopyStart(n), data);
            && SameOutside(img0, r, b.CopyStart(0), b.CopyStart(n + 1))
            && TableCopy(b, r, n) == data
            && forall k: nat | k < n :: TableCopy(b, r, k) == TableCopy(b, img, k)
  {
    CopiesInOrder(b, n, b.tableCount);
    CopiesInOrder(b, 0, n);
    CopiesInMeta(b);
    var r := Overwrite(img, b.CopyStart(n), data);
    forall k: nat | k < n ensures TableCopy(b, r, k) == TableCopy(b, img, k) {
      CopiesInOrder(b, k, n);
    }
  }

  /** The bits of the attribute byte. */
  datatype Attributes = Attributes(
    readOnly: bool, hidden: bool, system: bool, volumeLabel: bool, directory: bool, archive: bool, device: bool)

  /** The fields of a directory entry that the store looks at. */
  datatype DirEntry = DirEntry(label0: byte, attributes: Attributes, firstCluster: nat, fileSize: nat)
  {
    predicate HasLfn() { attributes.readOnly && attributes.hidden && attributes.system && attributes.volumeLabel }
    predicate IsDirectory() { attributes.directory }
    predicate IsDevice() { attributes.device }
    predicate IsLabel() { attributes.volumeLabel && !HasLfn() }
    predicate IsLongFileName() { HasLfn() && firstCluster == 0 }
    predicate IsFree() { label0 == 0xE5 || label0 == 0 }
    predicate IsValidFile() { !IsFree() && !IsLongFileName() && !IsDevice() && !IsLabel() }
    predicate IsRoot() { IsDirectory() && firstCluster == 0 }
    /** Refused by ReadFile and WriteFile. */
    predicate Refused() { !IsValidFile() || (firstCluster == 0 && fileSize != 0) }
  }
}
