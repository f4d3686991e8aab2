/**
 Where things are on a disk, byte by byte and field by field.
 */
module FatBytes {
  import opened Values
  import opened Arith
  import opened FatTable
  import opened FatChains
  import opened FatImage
  import opened FatLayout
  import opened FatDisk
  import opened FatSizing
  import opened FatCreate

  // ---- marks ----

  /** Numbers that end a walk: 0 and 1, and the nine highest from the bad cluster mark on. */
  lemma MarksExactly(v: nat)
    ensures v < 4096 ==> (IsEoc(Fat12, v) <==> v <= 1 || v >= 0xFF7)
    ensures v < 65536 ==> (IsEoc(Fat16, v) <==> v <= 1 || v >= 0xFFF7)
  {
  }

  /** The end mark is entry 1: twelve bits as they are, or sixteen with the two highest set. */
  lemma EndMarkBytes(b: Bpb, table: seq<byte>)
    requires b.Valid() && |table| == b.TableBytes()
    ensures |table| >= 3
    ensures b.TableWidth().Fat12? ==> EndMark(b, table) == table[1] as int / 16 + 16 * (table[2] as int)
    ensures b.TableWidth().Fat16? ==> |table| >= 4 && EndMark(b, table) == table[2] as int + 256 * (table[3] as int % 64 + 192)
  {
    HoldsBelow(b.TableWidth(), |table|, b.ClusterCount() + FIRST, 1);
    if b.TableWidth().Fat12? {
      EntryBytes12(table, 0);
    } else {
      EntryBytes16(table, 1);
      TopBits(table[2], table[3]);
    }
  }

  lemma TopBits(lo: byte, hi: byte)
    ensures (lo as int + 256 * (hi as int)) % 0x4000 + 0xC000 == lo as int + 256 * (hi as int % 64 + 192)
  {
  }

  // ---- clusters and files ----

  /** Clusters are numbered from 2 and lie one behind the other. */
  lemma ClusterByte(img: seq<byte>, base: nat, size: nat, n: nat, c: nat, i: nat)
    requires FatImage.Fits(img, base, size, n) && 2 <= c < n + 2 && i < size
    ensures base + (c - 2) * size + i < |img| && ClusterBytes(img, base, size, n, c)[i] == img[base + (c - 2) * size + i]
  {
    PositionFits(img, base, size, n, c);
  }

  /** Byte `i` of the `j`-th cluster of a file. */
  lemma {:induction false} FileByte(v: seq<seq<byte>>, chain: seq<nat>, size: nat, j: nat, i: nat)
    requires (forall k | 0 <= k < |chain| :: chain[k] < |v| && |v[chain[k]]| == size) && j < |chain| && i < size
    ensures j * size + i < |FileBytes(v, chain)| && FileBytes(v, chain)[j * size + i] == v[chain[j]][i]
  {
    var n := |chain| - 1;
    FileBytesLength(v, chain[..n], size);
    if j < n { FileByte(v, chain[..n], size, j, i); }
  }

  /** An overwritten image is the old one with the data in place of as many bytes. */
  lemma Overwritten(img: seq<byte>, at: nat, data: seq<byte>)
    requires at + |data| <= |img|
    ensures Overwrite(img, at, data) == img[..at] + data + img[at + |data|..]
  {
  }

  /** A read stops at the end of the image. */
  lemma ReadByte(img: seq<byte>, at: nat, was: seq<byte>, i: nat)
    requires i < |was|
    ensures ReadAt(img, at, was)[i] == if at + i < |img| then img[at + i] else was[i]
  {
  }

  /** A write behind the end makes the image longer. */
  lemma BeyondByte(img: seq<byte>, at: nat, data: seq<byte>, i: nat)
    requires at + |data| > |img| && i < at + |data|
    ensures |WriteBeyond(img, at, data)| == at + |data|
    ensures WriteBeyond(img, at, data)[i] == if i >= at then data[i - at] else if i < |img| then img[i] else 0
  {
  }

  // ---- directory entries ----

  /** Entries that ReadFile and WriteFile refuse: deleted or free ones, links of a long name, devices,
      volume labels, and those with a size but no cluster. The root directory is read all the same: it is
      the directory without a cluster. */
  lemma RefusedExactly(e: DirEntry)
    ensures e.IsRoot() <==> e.attributes.directory && e.firstCluster == 0
    ensures e.label0 == 0xE5 || e.label0 == 0x00 ==> e.Refused()
    ensures e.attributes.device || (e.firstCluster == 0 && e.fileSize != 0) ==> e.Refused()
    ensures e.attributes.volumeLabel ==>
              (e.Refused() || (e.attributes.readOnly && e.attributes.hidden && e.attributes.system && e.firstCluster != 0))
    ensures e.attributes.volumeLabel && e.firstCluster == 0 ==> e.Refused()
    ensures e.Refused() ==>
              || e.label0 == 0xE5 || e.label0 == 0x00 || e.attributes.device || e.attributes.volumeLabel
              || (e.firstCluster == 0 && e.fileSize != 0)
    ensures e.Refused() && e.attributes.volumeLabel && e.attributes.readOnly && e.attributes.hidden && e.attributes.system ==>
              e.label0 == 0xE5 || e.label0 == 0x00 || e.attributes.device || e.firstCluster == 0
  {
  }

  // ---- layout ----

  /** The parameters of a 1.44 MB disk. */
  predicate IsFloppy(b: Bpb) {
    && b.sectorSize == 512 && b.sectorsPerCluster == 1 && b.reservedSectorCount == 1 && b.tableCount == 2
    && b.rootDirCapacity == 224 && b.sectorCount == 2880 && b.sectorsPerTable == 9
  }

  lemma FloppyRoot(b: Bpb)
    requires IsFloppy(b)
    ensures b.RootSectors() == 14
  {
    var x, y := b.rootDirCapacity * DIRENTRY_SIZE, b.sectorSize;
    assert x == 7168;
    assert (x + y - 1) % WORD32 == 7679;
    DivUnique(7679, y, 14, 511);
  }

  /** The tables of a 1.44 MB disk start in sectors 1 and 10. */
  lemma FloppyTables(b: Bpb)
    requires IsFloppy(b)
    ensures b.CopySector(0) == 1 && b.CopySector(1) == 10
  {
  }

  lemma FloppySectors(b: Bpb)
    requires IsFloppy(b)
    ensures b.RootStart() == 19 && b.MetaSectors() == 33 && b.ClusterCount() == 2847
  {
    FloppyRoot(b);
    DivUnique(2847, b.sectorsPerCluster, 2847, 0);
  }

  lemma FloppyBytes(b: Bpb)
    requires IsFloppy(b)
    ensures b.Bytes(b.sectorCount) == 1474560 && b.Bytes(b.sectorsPerTable) == 4608
  {
    BytesIsProduct(b, b.sectorCount);
    BytesIsProduct(b, b.sectorsPerTable);
  }

  /** The root directory is in sectors 19 to 32, and the data from sector 33 on in 2847 clusters with
      12-bit entries. The disk can be created and opened. */
  lemma Floppy(b: Bpb)
    requires IsFloppy(b)
    ensures b.RootStart() == 19 && b.RootSectors() == 14
    ensures b.DataStart() == 33 * 512 && b.DiskSize() == 1474560
    ensures b.ClusterCount() == 2847 && b.TableWidth() == Fat12 && b.Valid()
    ensures !CreateRefuses(b) && !Aborts(b) && OpenAccepts(b, b.DiskSize())
  {
    var meta := b.MetaSectors();
    FloppyRoot(b);
    FloppySectors(b);
    FloppyBytes(b);
    BytesIsProduct(b, meta);
    PowersOf2();
  }

  lemma PowersOf2()
    ensures IsPow2(1) && IsPow2(512)
  {
    assert IsPow2(2) && IsPow2(4) && IsPow2(8) && IsPow2(16) && IsPow2(32) && IsPow2(64) && IsPow2(128) && IsPow2(256);
  }

  function Pow2(k: nat): nat { if k == 0 then 1 else 2 * Pow2(k - 1) }

  /** The macro accepts zero and the powers of two. */
  lemma {:induction false} PowerOrZero(n: nat) returns (k: nat)
    ensures IsPow2(n) && n > 0 <==> n == Pow2(k)
  {
    if n <= 1 {
      k := 0;
      assert Pow2(0) == 1;
    } else {
      var j := PowerOrZero(n / 2);
      k := j + 1;
      assert Pow2(j + 1) == 2 * Pow2(j);
    }
  }

  // ---- a new disk ----

  /** Every reserved sector of a new disk is the boot sector. */
  lemma BootSectors(b: Bpb, table: seq<byte>, boot: seq<byte>, title: seq<byte>, r: nat)
    requires b.Valid() && |boot| == |title| == b.sectorSize && |table| == b.TableBytes() && r < b.reservedSectorCount
    ensures r * b.sectorSize + b.sectorSize <= |ImageOf(b, table, boot, title)|
    ensures ImageOf(b, table, boot, title)[r * b.sectorSize..][..b.sectorSize] == boot
  {
    RepAt(boot, b.reservedSectorCount, r);
    MulIs(b.sectorSize, r);
    var front := Rep(boot, b.reservedSectorCount);
    var rest := Rep(table, b.tableCount) + RootArea(b, title) + Zeros(b.Bytes(b.sectorCount - b.MetaSectors()));
    assert ImageOf(b, table, boot, title) == [] + front + rest;
    SliceInside([], front, rest, r * b.sectorSize, b.sectorSize);
  }

  /** The volume label is in the first sector of the root directory, and everything behind it is zero. */
  lemma LabelSector(b: Bpb, table: seq<byte>, boot: seq<byte>, title: seq<byte>)
    requires b.Valid() && |boot| == |title| == b.sectorSize && |table| == b.TableBytes() && b.RootSectors() > 0
    ensures var img, at := ImageOf(b, table, boot, title), b.RootStart() * b.sectorSize;
            && at + b.sectorSize <= |img| && img[at..][..b.sectorSize] == title
            && forall a | at + b.sectorSize <= a < |img| :: img[a] == 0
  {
    ImageSize(b, table, boot, title);
    BytesIsProduct(b, b.RootStart());
    var x, img := Rep(boot, b.reservedSectorCount) + Rep(table, b.tableCount), ImageOf(b, table, boot, title);
    var rest := Zeros(b.Bytes(b.RootSectors() - 1)) + Zeros(b.Bytes(b.sectorCount - b.MetaSectors()));
    assert img == x + title + rest;
    SliceInside(x, title, rest, 0, b.sectorSize);
    assert title[0..][..b.sectorSize] == title;
  }

  // ---- sizing ----

  /** A 16-bit table has room for exactly its capacity; so has a 12-bit one, unless two bytes are left
      over at its end, which would hold one entry more. */
  lemma CapacityExactly(size: nat, clusters: nat)
    ensures HoldsAll(Fat16, size, clusters + 2) <==> clusters <= Capacity16(size)
    ensures size % 3 != 2 ==> (HoldsAll(Fat12, size, clusters + 2) <==> clusters <= Capacity12(size))
    ensures size % 3 == 2 ==> (HoldsAll(Fat12, size, clusters + 2) <==> clusters <= Capacity12(size) + 1)
  {
    var q := size / 3;
    var h := (clusters + 1) / 2;
  }

  /** The search gives up exactly when the table has more room than its width may use. */
  lemma TooManyExactly(width: Request12or16, size: nat, clusters: int)
    ensures Judge(width, size, clusters) == TooMany <==>
              || (width == Only12 && clusters > 4084 && size / 3 * 2 > 4086)
              || (clusters > 65524 && size / 2 > 65526)
  {
  }

  /** It finds too few clusters exactly when there is none, or fewer than 4085 for a 16-bit table. */
  lemma TooFewExactly(width: Request12or16, size: nat, clusters: int)
    requires size >= 512
    ensures Judge(width, size, clusters) == TooFew <==>
              (width != Only16 && clusters < 1) || (width == Only16 && clusters < 4085 && clusters <= size / 2 - 2)
  {
  }

  /** The smallest multiple that is not less. */
  lemma Aligned(x: nat, n: nat)
    requires n > 0
    ensures Align(x, n) % n == 0 && x <= Align(x, n) < x + n
  {
    DivUnique(Align(x, n), n, (x + n - 1) / n, 0);
  }
}
