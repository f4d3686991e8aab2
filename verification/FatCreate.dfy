/**
 Making a new disk: what the `create` command stores in the BIOS parameter block, the image that
 FatDisk::CreateNew writes, and whether FatDisk::Open accepts it.
 */
module FatCreate {
  import opened Values
  import opened Arith
  import opened FatTable
  import opened FatChains
  import opened FatImage
  import opened FatLayout
  import opened FatDisk
  import opened FatStore
  import opened FatSizing

  // ---- the image ----

  function Zeros(n: nat): seq<byte> { seq(n, _ => 0) }

  /** `x` written `n` times. */
  function Rep(x: seq<byte>, n: nat): seq<byte> {
    if n == 0 then [] else Rep(x, n - 1) + x
  }

  /** The product as a repeated sum. */
  function Mul(k: nat, n: nat): nat {
    if n == 0 then 0 else Mul(k, n - 1) + k
  }

  lemma {:induction false} MulIs(k: nat, n: nat)
    ensures Mul(k, n) == k * n == n * k
  {
    if n > 0 { MulIs(k, n - 1); }
  }

  lemma {:induction false} RepLength(b: Bpb, x: seq<byte>, k: nat, n: nat)
    requires |x| == b.Bytes(k)
    ensures |Rep(x, n)| == b.Bytes(Mul(k, n))
  {
    if n > 0 {
      RepLength(b, x, k, n - 1);
      BytesAdd(b, Mul(k, n - 1), k);
    }
  }

  lemma {:induction false} RepAt(x: seq<byte>, n: nat, i: nat)
    requires i < n
    ensures |Rep(x, n)| == Mul(|x|, n) && Mul(|x|, i) + |x| <= Mul(|x|, n) && Rep(x, n)[Mul(|x|, i)..][..|x|] == x
  {
    if n > 1 { RepAt(x, n - 1, if i < n - 1 then i else 0); }
    if i < n - 1 {
      assert Rep(x, n)[Mul(|x|, i)..][..|x|] == Rep(x, n - 1)[Mul(|x|, i)..][..|x|];
    }
  }

  /** The root directory of a new disk: the sector with the volume label, then zeros. */
  function RootArea(b: Bpb, title: seq<byte>): seq<byte>
    requires b.sectorSize > 0
  {
    if b.RootSectors() == 0 then [] else title + Zeros(b.Bytes(b.RootSectors() - 1))
  }

  /** Boot sector in every reserved sector, the tables, the root directory, and zeros. */
  function ImageOf(b: Bpb, table: seq<byte>, boot: seq<byte>, title: seq<byte>): seq<byte>
    requires b.Valid()
  {
    Rep(boot, b.reservedSectorCount) + Rep(table, b.tableCount) + RootArea(b, title)
    + Zeros(b.Bytes(b.sectorCount - b.MetaSectors()))
  }

  /** A table without files. */
  ghost predicate FreshTable(b: Bpb, table: seq<byte>, mediaType: byte)
    requires b.Valid()
  {
    |table| == b.TableBytes() &&
    var t := Entries(b.TableWidth(), table, b.ClusterCount() + FIRST);
    && t[0] == Modulus(b.TableWidth()) - 256 + mediaType && t[1] == EocHi(b.TableWidth())
    && forall k | FIRST <= k < |t| :: t[k] == FREE
  }

  lemma RootAreaLength(b: Bpb, title: seq<byte>)
    requires b.sectorSize > 0 && |title| == b.sectorSize
    ensures |RootArea(b, title)| == b.Bytes(b.RootSectors())
  {
  }

  /** The image has the size of the disk. */
  lemma ImageSize(b: Bpb, table: seq<byte>, boot: seq<byte>, title: seq<byte>)
    requires b.Valid() && |boot| == |title| == b.sectorSize && |table| == b.TableBytes()
    ensures |Rep(boot, b.reservedSectorCount)| == b.CopyStart(0)
    ensures |Rep(boot, b.reservedSectorCount) + Rep(table, b.tableCount)| == b.Bytes(b.RootStart())
    ensures |ImageOf(b, table, boot, title)| == b.DiskSize()
  {
    assert b.Bytes(1) == b.Bytes(0) + b.sectorSize;
    RepLength(b, boot, 1, b.reservedSectorCount);
    RepLength(b, table, b.sectorsPerTable, b.tableCount);
    MulIs(1, b.reservedSectorCount);
    MulIs(b.sectorsPerTable, b.tableCount);
    RootAreaLength(b, title);
    BytesAdd(b, b.reservedSectorCount, b.sectorsPerTable * b.tableCount);
    BytesAdd(b, b.RootStart(), b.RootSectors());
    BytesAdd(b, b.MetaSectors(), b.sectorCount - b.MetaSectors());
  }

  lemma {:induction false} TablesBytes(b: Bpb, k: nat)
    ensures b.Bytes(Mul(b.sectorsPerTable, k)) == Mul(b.TableBytes(), k)
  {
    if k > 0 {
      TablesBytes(b, k - 1);
      BytesAdd(b, Mul(b.sectorsPerTable, k - 1), b.sectorsPerTable);
    }
  }

  lemma CopyPosition(b: Bpb, k: nat)
    ensures b.CopyStart(k) == b.CopyStart(0) + Mul(b.TableBytes(), k)
  {
    MulIs(b.sectorsPerTable, k);
    BytesAdd(b, b.reservedSectorCount, k * b.sectorsPerTable);
    TablesBytes(b, k);
  }

  /** Each copy on the image is the table. */
  lemma ImageCopies(b: Bpb, table: seq<byte>, boot: seq<byte>, title: seq<byte>, k: nat)
    requires b.Valid() && |boot| == |title| == b.sectorSize && |table| == b.TableBytes() && k < b.tableCount
    ensures |ImageOf(b, table, boot, title)| == b.DiskSize()
    ensures TableCopy(b, ImageOf(b, table, boot, title), k) == table
  {
    ImageSize(b, table, boot, title);
    CopyPosition(b, k);
    RepAt(table, b.tableCount, k);
    var front, tables := Rep(boot, b.reservedSectorCount), Rep(table, b.tableCount);
    var rest := RootArea(b, title) + Zeros(b.Bytes(b.sectorCount - b.MetaSectors()));
    var img := ImageOf(b, table, boot, title);
    assert img == front + tables + rest;
    SliceInside(front, tables, rest, Mul(|table|, k), |table|);
  }

  lemma SliceInside(x: seq<byte>, y: seq<byte>, z: seq<byte>, i: nat, n: nat)
    requires i + n <= |y|
    ensures (x + y + z)[|x| + i..][..n] == y[i..][..n]
  {
  }

  // ---- CreateNew ----

  /** The parts of a creation. */
  datatype Creation = Refused | Aborted | Written(image: seq<byte>)

  /** The 16-bit sector count field; it is zero when the large field is used. */
  function SmallCount(b: Bpb): nat { if b.sectorCount > 65535 then 0 else b.sectorCount }

  /** Creation returns early. */
  predicate CreateRefuses(b: Bpb) {
    b.sectorCount == 0 || b.sectorsPerTable == 0 || b.sectorSize < 512 || !IsPow2(b.sectorSize) || !IsPow2(b.sectorsPerCluster)
  }

  /** Creation fails one of its own assertions: it always writes at least one reserved sector, and
      it expects the disk to have the size given by the 16-bit sector count. */
  predicate Aborts(b: Bpb) { b.reservedSectorCount == 0 || b.sectorCount > 65535 }

  method WriteTimes(out: seq<byte>, x: seq<byte>, from: nat, n: nat) returns (out': seq<byte>)
    requires from <= n
    ensures out' == out + Rep(x, n - from)
  {
    out' := out;
    assert out + Rep(x, 0) == out;
    var i := from;
    while i < n
      invariant from <= i <= n && out' == out + Rep(x, i - from)
    {
      assert Rep(x, i + 1 - from) == Rep(x, i - from) + x;
      out' := out' + x;
      i := i + 1;
    }
  }

  lemma {:induction false} RepZeros(b: Bpb, k: nat, n: nat)
    ensures Rep(Zeros(b.Bytes(k)), n) == Zeros(b.Bytes(Mul(k, n)))
  {
    if n > 0 {
      RepZeros(b, k, n - 1);
      BytesAdd(b, Mul(k, n - 1), k);
    }
  }

  method WriteRootArea(b: Bpb, out: seq<byte>, title: seq<byte>) returns (out': seq<byte>)
    requires b.sectorSize > 0
    ensures out' == out + RootArea(b, title)
  {
    out' := out;
    if b.RootSectors() > 0 {
      out' := WriteTimes(out + title, Zeros(b.sectorSize), 1, b.RootSectors());
      RepSectors(b, b.RootSectors() - 1);
      assert out + title + Zeros(b.Bytes(b.RootSectors() - 1)) == out + (title + Zeros(b.Bytes(b.RootSectors() - 1)));
    }
  }

  lemma DataZeros(b: Bpb, clusters: nat, extra: nat)
    ensures Rep(Zeros(b.ClusterSize()), clusters) + Rep(Zeros(b.sectorSize), extra)
         == Zeros(b.Bytes(Mul(b.sectorsPerCluster, clusters) + extra))
  {
    var n := Mul(b.sectorsPerCluster, clusters);
    ClusterBytesAre(b);
    RepZeros(b, b.sectorsPerCluster, clusters);
    RepSectors(b, extra);
    ZerosAdd(b.Bytes(n), b.Bytes(extra));
    BytesAdd(b, n, extra);
  }

  lemma ClusterBytesAre(b: Bpb)
    ensures b.Bytes(b.sectorsPerCluster) == b.ClusterSize()
  {
    BytesIsProduct(b, b.sectorsPerCluster);
  }

  lemma RepSectors(b: Bpb, n: nat)
    ensures Rep(Zeros(b.sectorSize), n) == Zeros(b.Bytes(n))
  {
    assert b.Bytes(1) == b.Bytes(0) + b.sectorSize;
    RepZeros(b, 1, n);
    MulIs(1, n);
  }

  lemma ZerosAdd(m: nat, n: nat)
    ensures Zeros(m) + Zeros(n) == Zeros(m + n)
  {
  }

  /** The data area: whole clusters, then the sectors that do not make up a cluster. */
  method WriteData(b: Bpb, out: seq<byte>) returns (out': seq<byte>)
    requires b.Valid()
    ensures out' == out + Zeros(b.Bytes(b.sectorCount - b.MetaSectors()))
  {
    var dataSectors := b.sectorCount - b.MetaSectors();
    var clusters := dataSectors / b.sectorsPerCluster;
    DivTimes(dataSectors, b.sectorsPerCluster);
    var extra := dataSectors - clusters * b.sectorsPerCluster;
    var mid := WriteTimes(out, Zeros(b.ClusterSize()), 0, clusters);
    out' := WriteTimes(mid, Zeros(b.sectorSize), 0, extra);
    DataZeros(b, clusters, extra);
    MulIs(b.sectorsPerCluster, clusters);
    assert out + Rep(Zeros(b.ClusterSize()), clusters) + Rep(Zeros(b.sectorSize), extra)
        == out + (Rep(Zeros(b.ClusterSize()), clusters) + Rep(Zeros(b.sectorSize), extra));
  }

  /** InitFat12 or InitFat16 on a new buffer. */
  method MakeTable(b: Bpb, mediaType: byte) returns (table: seq<byte>)
    requires b.Valid()
    ensures FreshTable(b, table, mediaType)
  {
    var fat := new byte[b.TableBytes()];
    InitFat(b.TableWidth(), fat, mediaType, EocHi(b.TableWidth()), b.ClusterCount() + FIRST);
    table := fat[..];
  }

  /** Writes the image of a new disk. `boot` is the boot sector and `title` the first sector of the
      root directory. */
  method CreateNew(b: Bpb, mediaType: byte, boot: seq<byte>, title: seq<byte>) returns (r: Creation, ghost table: seq<byte>)
    requires b.Valid() && |boot| == |title| == b.sectorSize
    ensures r.Refused? <==> CreateRefuses(b)
    ensures r.Aborted? <==> !CreateRefuses(b) && Aborts(b)
    ensures FreshTable(b, table, mediaType)
    ensures r.Written? ==> r.image == ImageOf(b, table, boot, title) && |r.image| == b.DiskSize()
  {
    var fat := MakeTable(b, mediaType);
    table := fat;
    if CreateRefuses(b) {
      return Refused, fat;
    }
    ImageSize(b, fat, boot, title);
    BytesIsProduct(b, b.reservedSectorCount);
    BytesIsProduct(b, b.sectorCount);
    BytesIsProduct(b, SmallCount(b));
    var reserved := if b.reservedSectorCount == 0 then 1 else b.reservedSectorCount;
    var out := WriteTimes(boot, boot, 1, reserved);
    RepFront(boot, reserved);
    if |out| != b.reservedSectorCount * b.sectorSize {
      return Aborted, fat;
    }
    out := WriteTimes(out, fat, 0, b.tableCount);
    assert |out| == b.Bytes(b.RootStart());
    out := WriteRootArea(b, out, title);
    out := WriteData(b, out);
    assert out == ImageOf(b, fat, boot, title);
    if |out| != SmallCount(b) * b.sectorSize {
      return Aborted, fat;
    }
    r := Written(out);
  }

  lemma {:induction false} RepFront(x: seq<byte>, n: nat)
    requires n > 0
    ensures x + Rep(x, n - 1) == Rep(x, n)
  {
    if n > 1 {
      RepFront(x, n - 1);
      assert x + (Rep(x, n - 2) + x) == x + Rep(x, n - 2) + x;
    } else {
      assert Rep(x, 0) == [] && Rep(x, 1) == [] + x;
    }
  }

  // ---- Open ----

  /** The checks of Open on an image of `size` bytes. */
  predicate OpenAccepts(b: Bpb, size: nat) {
    && size >= 4096 && IsPow2(b.sectorSize) && 512 <= b.sectorSize <= 32768 && b.sectorCount > 0 && b.reservedSectorCount > 0
    && b.rootDirCapacity > 0 && b.sectorsPerTable > 0 && b.tableCount > 0
    && b.Bytes(b.MetaSectors()) < size
  }

  method OpenDisk(b: Bpb, image: seq<byte>, marked: bool) returns (d: Disk?)
    requires b.Valid() && |image| == b.DiskSize()
    ensures d == null <==> !OpenAccepts(b, |image|)
    ensures d != null ==>
              && fresh(d) && fresh(d.fat) && d.bpb == b && d.image == image && d.Sized() && d.Saved()
              && d.fat[..] == TableCopy(b, image, 0)
  {
    if !OpenAccepts(b, |image|) {
      return null;
    }
    d := new Disk.Open(b, image, marked);
  }

  /** Creating a disk and opening it succeeds exactly when neither step objects, and gives a volume
      without files on which every cluster is free. */
  method CreateThenOpen(b: Bpb, mediaType: byte, boot: seq<byte>, title: seq<byte>, marked: bool) returns (d: Disk?)
    requires b.Valid() && |boot| == |title| == b.sectorSize
    ensures d != null <==> !CreateRefuses(b) && !Aborts(b) && OpenAccepts(b, b.DiskSize())
    ensures d != null ==>
              && fresh(d) && fresh(d.fat) && d.bpb == b && d.Valid() && d.Saved()
              && Represents(d, Volume([], [], [])) && FreeCount(d.Table()) == b.ClusterCount()
  {
    var r, table := CreateNew(b, mediaType, boot, title);
    if !r.Written? {
      return null;
    }
    d := OpenDisk(b, r.image, marked);
    if d != null {
      ImageCopies(b, table, boot, title, 0);
      assert d.fat[..] == table;
      FreshIsEmpty(b, table, mediaType);
    }
  }

  /** A fresh table describes a volume without files. */
  lemma FreshIsEmpty(b: Bpb, table: seq<byte>, mediaType: byte)
    requires b.Valid() && FreshTable(b, table, mediaType)
    ensures var t := Entries(b.TableWidth(), table, b.ClusterCount() + FIRST);
            Files(b.TableWidth(), t, []) && FreeCount(t) == b.ClusterCount()
    ensures EocLo(b.TableWidth()) <= EndMark(b, table) <= EocHi(b.TableWidth())
  {
    var t := Entries(b.TableWidth(), table, b.ClusterCount() + FIRST);
    AllFree(t, b.ClusterCount() + FIRST);
    assert t[1] == Get(b.TableWidth(), table, 1);
  }

  // ---- the whole command ----

  /** The BIOS parameter block as the command stores it: the number of tables in 8 bits, reserved
      sectors and root entries in 16. */
  function AsStored(r: Request, m: nat, rootDirCapacity: nat): Bpb {
    Bpb(r.sectorSize, r.sectorsPerCluster, r.reserved % 65536, r.tableCount % 256, rootDirCapacity % 65536, r.sectorCount, m)
  }

  /** The disk is made and opened with the layout, cluster count and width that were planned. */
  ghost predicate GetsPlan(r: Request, m: nat, rootDirCapacity: nat)
    requires r.Checked()
  {
    var b := AsStored(r, m, rootDirCapacity);
    && !CreateRefuses(b) && !Aborts(b) && OpenAccepts(b, b.DiskSize())
    && b == Plan(r, m, rootDirCapacity) && b.Valid()
    && b.ClusterCount() == r.Clusters(m) && JudgeSectors(r, m) == Fits(b.TableWidth())
  }

  /** What a caller can check beforehand. */
  predicate Storable(r: Request, m: nat, rootDirCapacity: nat)
    requires r.Checked()
  {
    && r.tableCount <= 255 && rootDirCapacity <= 65535 && r.sectorCount <= 65535
    && r.sectorCount * r.sectorSize >= 4096
    && Align(r.Used(m), r.sectorsPerCluster) - r.Used(m) <= (r.sectorCount - r.Used(m)) % r.sectorsPerCluster
  }

  lemma StorableGetsPlan(r: Request, m: nat, rootDirCapacity: nat)
    requires r.Checked() && m >= 1 && JudgeSectors(r, m).Fits? && rootDirCapacity > 0
    requires r.rootSectors == (rootDirCapacity * DIRENTRY_SIZE + r.sectorSize - 1) / r.sectorSize
    requires Storable(r, m, rootDirCapacity)
    ensures GetsPlan(r, m, rootDirCapacity)
  {
    MulBoth(r.sectorCount, 65535, r.sectorSize, 32768);
    MulBoth(1, m, 512, r.sectorSize);
    AcceptedTable(r.width, m * r.sectorSize, r.Clusters(m));
    RoomLeft(r, m);
    StoredIsPlan(r, m, rootDirCapacity);
    RootFits(r, rootDirCapacity);
    PlanIsValid(r, m, rootDirCapacity);
    PlanOpens(r, m, rootDirCapacity);
  }

  lemma StoredIsPlan(r: Request, m: nat, rootDirCapacity: nat)
    requires r.Used(m) < r.sectorCount <= 65535 && r.tableCount <= 255 && rootDirCapacity <= 65535
    ensures AsStored(r, m, rootDirCapacity) == Plan(r, m, rootDirCapacity)
  {
    assert r.reserved <= r.Used(m);
  }

  lemma RootFits(r: Request, rootDirCapacity: nat)
    requires 512 <= r.sectorSize <= 32768 && rootDirCapacity <= 65535
    ensures CeilDiv32(rootDirCapacity * DIRENTRY_SIZE, r.sectorSize)
         == (rootDirCapacity * DIRENTRY_SIZE + r.sectorSize - 1) / r.sectorSize
  {
  }

  lemma PlanOpens(r: Request, m: nat, rootDirCapacity: nat)
    requires r.Checked() && m >= 1 && rootDirCapacity > 0 && r.Used(m) < r.sectorCount
    requires CeilDiv32(rootDirCapacity * DIRENTRY_SIZE, r.sectorSize) == r.rootSectors && r.sectorCount * r.sectorSize >= 4096
    ensures var b := Plan(r, m, rootDirCapacity); OpenAccepts(b, b.DiskSize())
  {
    var b := Plan(r, m, rootDirCapacity);
    assert b.MetaSectors() == r.Used(m);
    BytesLe(b, r.Used(m), r.sectorCount);
    BytesIsProduct(b, r.sectorCount);
  }

  /** An accepted table leaves at least one sector for data. */
  lemma RoomLeft(r: Request, m: nat)
    requires r.Checked() && r.Clusters(m) >= 1
    ensures r.Used(m) < r.sectorCount
  {
    PositiveClusters(r.sectorCount, Align(r.Used(m), r.sectorsPerCluster), r.sectorsPerCluster);
    NoneFits(r.sectorsPerCluster);
  }

  lemma NoneFits(spc: nat)
    requires spc > 0
    ensures Quotient(0, spc) == 0
  {
  }

  lemma PlanNeedsStorable(r: Request, m: nat, rootDirCapacity: nat)
    requires r.Checked() && m >= 1 && JudgeSectors(r, m).Fits? && rootDirCapacity > 0
    requires r.rootSectors == (rootDirCapacity * DIRENTRY_SIZE + r.sectorSize - 1) / r.sectorSize
    requires GetsPlan(r, m, rootDirCapacity)
    ensures Storable(r, m, rootDirCapacity)
  {
    var b, used, spc := Plan(r, m, rootDirCapacity), r.Used(m), r.sectorsPerCluster;
    MulBoth(1, m, 512, r.sectorSize);
    AcceptedTable(r.width, m * r.sectorSize, r.Clusters(m));
    PositiveClusters(r.sectorCount, Align(used, spc), spc);
    CountsAgree(r.sectorCount, used, spc);
    assert b.MetaSectors() == used;
    DiskProduct(b);
  }

  lemma DiskProduct(b: Bpb)
    ensures b.DiskSize() == b.sectorCount * b.sectorSize
  {
    BytesIsProduct(b, b.sectorCount);
  }

  /** An accepted request is made and opened as planned exactly when its numbers fit their fields,
      it has at most 65535 sectors and at least 4096 bytes, and the counts agree. */
  lemma CreatedExactly(r: Request, m: nat, rootDirCapacity: nat)
    requires r.Checked() && m >= 1 && JudgeSectors(r, m).Fits? && rootDirCapacity > 0
    requires r.rootSectors == (rootDirCapacity * DIRENTRY_SIZE + r.sectorSize - 1) / r.sectorSize
    ensures GetsPlan(r, m, rootDirCapacity) <==> Storable(r, m, rootDirCapacity)
  {
    if Storable(r, m, rootDirCapacity) {
      StorableGetsPlan(r, m, rootDirCapacity);
    } else if GetsPlan(r, m, rootDirCapacity) {
      PlanNeedsStorable(r, m, rootDirCapacity);
    }
  }

  /** 256 tables are accepted, stored as none, and refused on opening. */
  lemma TablesLost()
    ensures var r := Request(512, 20000, 1, 256, 14, 1, Any);
            && r.Checked() && JudgeSectors(r, 40) == Fits(Fat16)
            && AsStored(r, 40, 224).tableCount == 0
            && !OpenAccepts(AsStored(r, 40, 224), AsStored(r, 40, 224).DiskSize())
  {
    var r := Request(512, 20000, 1, 256, 14, 1, Any);
    assert r.Used(40) == 10255 && Align(10255, 1) == 10255;
  }

  /** A disk of 70000 sectors is accepted, and its creation fails its own assertion. */
  lemma LargeDiskAborts()
    ensures var r := Request(512, 70000, 4, 2, 14, 1, Any);
            r.Checked() && JudgeSectors(r, 69) == Fits(Fat16) && Aborts(AsStored(r, 69, 224))
  {
    var r := Request(512, 70000, 4, 2, 14, 1, Any);
    assert r.Used(69) == 153 && Align(153, 4) == 156;
  }
}
