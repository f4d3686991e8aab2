/**
 FatDisk: files stored as cluster chains on a disk image.
 */
module FatDisk {
  import opened Values
  import opened FatTable
  import opened FatChains
  import opened FatImage
  import opened FatLayout
  import opened FatWrite

  /** The end mark a table prescribes; the two flag bits of a FAT16 mark are forced on. */
  function EndMark(bpb: Bpb, table: seq<byte>): nat
    requires bpb.Valid() && |table| == bpb.TableBytes()
  {
    var mark := Get(bpb.TableWidth(), table, 1);
    if bpb.TableWidth().Fat12? then mark else mark % 0x4000 + 0xC000
  }

  class Disk {
    const bpb: Bpb
    const fat: array<byte>
    var image: seq<byte>
    var dirty: bool

    /** Opens an image: the table in memory is its first copy. `marked` is what the dirty flag
        starts as; for FAT12 the source leaves it uninitialised. */
    constructor Open(bpb: Bpb, image: seq<byte>, marked: bool)
      requires bpb.Valid() && |image| == bpb.DiskSize() && bpb.tableCount > 0
      ensures Sized() && Saved() && fresh(fat) && this.bpb == bpb && this.image == image
      ensures fat[..] == TableCopy(bpb, image, 0)
      ensures Valid() <==> EocLo(bpb.TableWidth()) <= EndMark(bpb, TableCopy(bpb, image, 0)) <= EocHi(bpb.TableWidth())
    {
      CopiesInOrder(bpb, 0, bpb.tableCount);
      CopiesInMeta(bpb);
      this.bpb := bpb;
      var start, n := bpb.CopyStart(0), bpb.TableBytes();
      fat := new byte[n](i requires 0 <= i < n && start + n <= |image| => image[start + i]);
      this.image := image;
      dirty := marked;
      new;
      assert fat[..] == TableCopy(bpb, image, 0);
    }

    /** Unless the table has changed since, the first copy on the image is the table in memory. */
    ghost predicate Saved()
      requires Sized()
      reads this, fat
    {
      dirty || (bpb.tableCount > 0 ==> TableCopy(bpb, image, 0) == fat[..])
    }

    /** The destructor: writes the table back when it has changed. */
    method Close()
      requires Valid() && Saved()
      modifies this`image
      ensures Valid() && (bpb.tableCount > 0 ==> TableCopy(bpb, image, 0) == fat[..])
      ensures Data() == old(Data())
    {
      if dirty {
        var _ := WriteFAT();
        CopiesInMeta(bpb);
        ClustersFitDisk(bpb);
        ViewSame(old(image), image, bpb.DataStart(), bpb.ClusterSize(), bpb.ClusterCount());
      }
    }

    /** The buffers have the sizes the layout gives them. */
    ghost predicate Sized()
      reads this
    {
      bpb.Valid() && fat.Length == bpb.TableBytes() && |image| == bpb.DiskSize()
    }

    ghost predicate Valid()
      reads this, fat
    {
      && Sized()
      && EocLo(bpb.TableWidth()) <= Eoc() <= EocHi(bpb.TableWidth())
    }

    /** The abstract table: entries 0 .. clusters+1. */
    ghost function Table(): (t: Table)
      requires bpb.Valid() && fat.Length == bpb.TableBytes()
      reads fat
      ensures |t| == bpb.ClusterCount() + FIRST && Addressable(bpb.TableWidth(), t)
    {
      Entries(bpb.TableWidth(), fat[..], bpb.ClusterCount() + FIRST)
    }

    /** The data area: contents of every cluster. */
    ghost function Data(): (v: seq<seq<byte>>)
      requires bpb.Valid() && |image| == bpb.DiskSize()
      reads this
      ensures |v| == bpb.ClusterCount() + FIRST
      ensures forall c | FIRST <= c < |v| :: |v[c]| == bpb.ClusterSize()
    {
      ClustersFitDisk(bpb);
      View(image, bpb.DataStart(), bpb.ClusterSize(), bpb.ClusterCount())
    }

    /** Everything before the data area: reserved sectors, tables and root directory. */
    ghost function Meta(): seq<byte>
      requires bpb.Valid() && |image| == bpb.DiskSize()
      reads this
    {
      ClustersFitDisk(bpb);
      image[..bpb.DataStart()]
    }

    /** Sectors behind the last cluster. */
    ghost function Slack(): seq<byte>
      requires bpb.Valid() && |image| == bpb.DiskSize()
      reads this
    {
      ClustersFitDisk(bpb);
      image[bpb.DataEnd()..]
    }

    /** GetClusterNumberEOC: entry 1 of the table. */
    function Eoc(): nat
      requires bpb.Valid() && fat.Length == bpb.TableBytes()
      reads fat
    {
      EndMark(bpb, fat[..])
    }

    /** The bounds test of GetCluster lets the index one past the last cluster through;
        the caller must then have that entry inside the buffer. */
    function GetCluster(index: nat): (v: nat)
      requires Valid()
      requires index == bpb.ClusterCount() + FIRST ==> Holds(bpb.TableWidth(), fat.Length, index)
      reads this, fat
      ensures index < bpb.ClusterCount() + FIRST ==> v == Table()[index]
      ensures index > bpb.ClusterCount() + FIRST ==> IsTail(bpb.TableWidth(), v)
    {
      if index >= FIRST && index - FIRST > bpb.ClusterCount() then Eoc()
      else Get(bpb.TableWidth(), fat[..], index)
    }

    method SetCluster(index: nat, value: nat) returns (oldValue: nat)
      requires Valid()
      requires index == bpb.ClusterCount() + FIRST ==> Holds(bpb.TableWidth(), fat.Length, index)
      modifies fat
      ensures Valid() && Eoc() == old(Eoc())
      ensures InRange(old(Table()), index) ==>
                && oldValue == old(Table()[index])
                && Table() == old(Table())[index := Truncate(bpb.TableWidth(), value)]
      ensures index < FIRST || index > bpb.ClusterCount() + FIRST ==> fat[..] == old(fat[..])
    {
      if index < FIRST || index - FIRST > bpb.ClusterCount() {
        return Eoc();
      }
      ghost var b := fat[..];
      oldValue := FatTable.SetCluster(bpb.TableWidth(), fat, index, value);
      SetMisses(bpb.TableWidth(), b, index, value, 1);
      if index < bpb.ClusterCount() + FIRST {
        SetRefinesUpdate(bpb.TableWidth(), b, index, value, bpb.ClusterCount() + FIRST);
      }
    }

    method CountFreeClusters() returns (free: nat)
      requires Valid()
      ensures free == FreeCount(Table())
    {
      free := 0;
      var i := 0;
      while i < bpb.ClusterCount()
        invariant 0 <= i <= bpb.ClusterCount()
        invariant free == FreeBelow(Table(), i + FIRST)
      {
        if GetCluster(FIRST + i) == FREE { free := free + 1; }
        i := i + 1;
      }
    }

    /** Returns the lowest free cluster, or the end mark when the volume is full. */
    method FindNextFreeCluster() returns (c: nat)
      requires Valid()
      ensures FreeCount(Table()) > 0 ==> c == NextFree(Table(), FIRST) < |Table()| && Table()[c] == FREE
      ensures FreeCount(Table()) == 0 ==> IsTail(bpb.TableWidth(), c)
    {
      var i := 0;
      while i < bpb.ClusterCount()
        invariant 0 <= i <= bpb.ClusterCount()
        invariant NextFree(Table(), FIRST) >= FIRST + i
      {
        if GetCluster(FIRST + i) == FREE {
          SomeFree(Table(), FIRST + i);
          return FIRST + i;
        }
        i := i + 1;
      }
      NoFreeBelow(Table(), |Table()|);
      return Eoc();
    }

    /** Number of clusters a walk from the entry's first cluster visits. A file that owns no
        cluster yet (its first cluster is free) counts one. */
    method CountClusters(file: DirEntry, ghost chain: seq<nat>) returns (count: nat)
      requires Valid() && Owns(Table(), file, chain)
      ensures count == ExistingCount(file, chain)
    {
      if file.IsRoot() || file.firstCluster == FREE {
        return 0;
      }
      count := 0;
      var cluster := file.firstCluster;
      ghost var steps := if chain == [] then 1 else |chain|;
      while true
        invariant 0 <= count < steps
        invariant if chain == [] then cluster == file.firstCluster else cluster == chain[count]
        decreases steps - count
      {
        count := count + 1;
        if chain != [] && count < |chain| { LinkGoesOn(bpb.TableWidth(), Table(), chain, count - 1); }
        cluster := GetCluster(cluster);
        if IsEoc(bpb.TableWidth(), cluster) {
          break;
        }
      }
    }

    /** `chain` is the file's chain; it is empty when the entry has no cluster or a free one. */
    ghost predicate Owns(t: Table, file: DirEntry, chain: seq<nat>)
      requires bpb.Valid()
    {
      if chain == [] then file.firstCluster == 0 || (InRange(t, file.firstCluster) && t[file.firstCluster] == FREE)
      else file.firstCluster == chain[0] && IsChain(bpb.TableWidth(), t, chain)
    }

    ghost function ExistingCount(file: DirEntry, chain: seq<nat>): nat {
      if file.firstCluster == 0 then 0 else if chain == [] then 1 else |chain|
    }

    /** The assertion in the source stops at the index one past the last cluster. */
    method ReadCluster(index: nat) returns (ok: bool, buf: seq<byte>)
      requires Sized() && index != bpb.ClusterCount() + FIRST
      ensures ok <==> InRange(Table(), index)
      ensures ok ==> buf == Data()[index]
    {
      if index < FIRST || index - FIRST > bpb.ClusterCount() {  // below 2 the unsigned difference is huge
        return false, [];
      }
      ClustersFitDisk(bpb);
      ghost var n := bpb.ClusterCount();
      PositionFits(image, bpb.DataStart(), bpb.ClusterSize(), n, index);
      var seekAddr := Position(bpb.DataStart(), bpb.ClusterSize(), index);
      assert seekAddr + bpb.ClusterSize() <= bpb.DiskSize();
      return true, image[seekAddr..][..bpb.ClusterSize()];
    }

    method WriteCluster(index: nat, buf: seq<byte>) returns (ok: bool)
      requires Sized() && index != bpb.ClusterCount() + FIRST
      requires |buf| == bpb.ClusterSize()
      modifies this`image
      ensures Sized()
      ensures ok <==> InRange(Table(), index)
      ensures !ok ==> image == old(image)
      ensures ok ==> Data() == old(Data())[index := buf]
      ensures Meta() == old(Meta()) && Slack() == old(Slack())
    {
      if index < FIRST || index - FIRST > bpb.ClusterCount() {  // below 2 the unsigned difference is huge
        return false;
      }
      ClustersFitDisk(bpb);
      OverwriteCluster(image, bpb.DataStart(), bpb.ClusterSize(), bpb.ClusterCount(), index, buf);
      var seekAddr := Position(bpb.DataStart(), bpb.ClusterSize(), index);
      assert seekAddr + bpb.ClusterSize() <= bpb.DiskSize();
      image := Overwrite(image, seekAddr, buf);
      return true;
    }

    /** Reads into a buffer that held `was`. An address that passes the test only because the sum
        wraps lies at the end of the 32-bit range: the call succeeds, and what lies behind the image
        is not read. */
    method ReadSector(index: nat, was: seq<byte>) returns (ok: bool, buf: seq<byte>)
      requires Sized() && |was| == bpb.sectorSize
      ensures ok <==> SectorTest(bpb, index)
      ensures buf == if ok then ReadAt(image, SeekAddress(bpb, index), was) else was
      ensures bpb.Bytes(index) + bpb.sectorSize < WORD32 ==> (ok <==> index < bpb.sectorCount)
      ensures index < bpb.sectorCount ==> ok && bpb.Bytes(index) + bpb.sectorSize <= |image|
      ensures index < bpb.sectorCount ==> buf == image[bpb.Bytes(index)..][..bpb.sectorSize]
    {
      SectorInDisk(bpb, index);
      if !SectorTest(bpb, index) {
        return false, was;
      }
      return true, ReadAt(image, SeekAddress(bpb, index), was);
    }

    /** Where a read would leave the buffer alone, a write extends the image. */
    method WriteSector(index: nat, buf: seq<byte>) returns (ok: bool)
      requires Sized() && |buf| == bpb.sectorSize
      modifies this`image
      ensures ok <==> SectorTest(bpb, index)
      ensures !ok ==> image == old(image)
      ensures ok && SeekAddress(bpb, index) + bpb.sectorSize <= |old(image)| ==>
                Sized() && image == Overwrite(old(image), SeekAddress(bpb, index), buf)
      ensures ok && SeekAddress(bpb, index) + bpb.sectorSize > |old(image)| ==>
                SeekAddress(bpb, index) + bpb.sectorSize >= WORD32 && image == WriteBeyond(old(image), SeekAddress(bpb, index), buf)
      ensures bpb.Bytes(index) + bpb.sectorSize < WORD32 ==> (ok <==> index < bpb.sectorCount)
      ensures index < bpb.sectorCount ==> Sized() && ok && SeekAddress(bpb, index) == bpb.Bytes(index)
    {
      SectorInDisk(bpb, index);
      var seekAddr := SeekAddress(bpb, index);
      if !SectorTest(bpb, index) {
        return false;
      }
      if seekAddr + bpb.sectorSize <= |image| {
        image := Overwrite(image, seekAddr, buf);
      } else {
        image := WriteBeyond(image, seekAddr, buf);
      }
      return true;
    }

    method ReadInside(index: nat) returns (ok: bool, data: seq<byte>)
      requires Sized() && index < bpb.sectorCount
      ensures ok && bpb.Bytes(index) + bpb.sectorSize <= |image| && data == image[bpb.Bytes(index)..][..bpb.sectorSize]
    {
      ok, data := ReadSector(index, seq(bpb.sectorSize, _ => 0));
    }

    /** Consecutive sectors, as ReadRoot reads them. */
    method ReadSectors(start: nat, count: nat) returns (ok: bool, buf: seq<byte>)
      requires Sized() && start + count <= bpb.sectorCount
      ensures ok && bpb.Bytes(start) + bpb.Bytes(count) <= |image|
      ensures buf == image[bpb.Bytes(start)..][..bpb.Bytes(count)]
    {
      SectorsInDisk(bpb, start, count);
      ok, buf := true, [];
      var i := 0;
      while ok && i < count
        invariant ok && 0 <= i <= count
        invariant bpb.Bytes(start) + bpb.Bytes(i) <= |image|
        invariant buf == image[bpb.Bytes(start)..][..bpb.Bytes(i)]
      {
        SectorsInDisk(bpb, start, i + 1);
        BytesAdd(bpb, start, i);
        var data;
        ok, data := ReadInside(start + i);
        SliceMore(image, bpb.Bytes(start), bpb.Bytes(i), bpb.sectorSize);
        buf := buf + data;
        i := i + 1;
      }
    }

    /** Consecutive sectors, as WriteRoot and WriteFAT write them. */
    method WriteSectors(start: nat, count: nat, buf: seq<byte>) returns (ok: bool)
      requires Sized() && start + count <= bpb.sectorCount
      requires |buf| >= bpb.Bytes(count)
      modifies this`image
      ensures Sized() && ok
      ensures bpb.Bytes(start) + bpb.Bytes(count) <= |old(image)|
      ensures image == Overwrite(old(image), bpb.Bytes(start), buf[..bpb.Bytes(count)])
    {
      SectorsInDisk(bpb, start, count);
      ok := true;
      var i, at, size := 0, 0, bpb.sectorSize;
      ghost var img, from := image, bpb.Bytes(start);
      while ok && i < count
        invariant ok && 0 <= i <= count && |image| == |img|
        invariant at == bpb.Bytes(i) && at <= bpb.Bytes(count)
        invariant image == Overwrite(img, from, buf[..at])
      {
        BytesAdd(bpb, start, i);
        BytesLe(bpb, i, count);
        OverwriteExtends(img, from, buf, at, size);
        ok := WriteSector(start + i, buf[at..at + size]);
        i, at := i + 1, at + size;
      }
    }

    /** WriteFAT: every copy of the table on the image becomes the table in memory; the
        reserved sectors, the root directory and the data area keep their bytes. */
    method WriteFAT() returns (ok: bool)
      requires Sized()
      modifies this`image
      ensures Sized() && ok
      ensures forall n: nat | n < bpb.tableCount :: TableCopy(bpb, image, n) == fat[..]
      ensures SameOutside(old(image), image, bpb.CopyStart(0), bpb.CopyStart(bpb.tableCount))
    {
      ok := true;
      var start, n := bpb.reservedSectorCount, 0;
      CopiesInMeta(bpb);
      while ok && n < bpb.tableCount
        invariant ok && 0 <= n <= bpb.tableCount && Sized()
        invariant start == bpb.CopySector(n)
        invariant forall k: nat | k < n :: TableCopy(bpb, image, k) == fat[..]
        invariant SameOutside(old(image), image, bpb.CopyStart(0), bpb.CopyStart(n))
      {
        CopiesInOrder(bpb, n, bpb.tableCount);
        assert fat[..][..bpb.TableBytes()] == fat[..];
        WriteCopy(bpb, old(image), image, n, fat[..]);
        ok := WriteSectors(start, bpb.sectorsPerTable, fat[..]);
        start := start + bpb.sectorsPerTable;
        n := n + 1;
      }
    }

    /** The clusters a walk from the entry visits: its chain, or its single free first cluster. */
    ghost function Walk(file: DirEntry, chain: seq<nat>): seq<nat> {
      if chain == [] && file.firstCluster != 0 then [file.firstCluster] else chain
    }

    /** The root directory's sectors. */
    ghost function Root(): seq<byte>
      requires Sized()
      reads this, fat
    {
      SectorsInDisk(bpb, bpb.RootStart(), bpb.RootSectors());
      image[bpb.Bytes(bpb.RootStart())..][..bpb.Bytes(bpb.RootSectors())]
    }

    /** Reads whole clusters along the chain; the caller's buffer gets all of them. */
    method ReadFile(file: DirEntry, ghost chain: seq<nat>) returns (ok: bool, buf: seq<byte>)
      requires Valid() && Owns(Table(), file, chain)
      ensures ok <==> file.IsRoot() || !file.Refused()
      ensures file.IsRoot() ==> buf == Root()
      ensures ok && !file.IsRoot() ==> buf == FileBytes(Data(), Walk(file, chain))
    {
      if file.IsRoot() {
        ok, buf := ReadSectors(bpb.RootStart(), bpb.RootSectors());
        return;
      }
      if file.Refused() {
        return false, [];
      }
      ok, buf := ReadWalk(file.firstCluster, Walk(file, chain));
    }

    method ReadWalk(first: nat, ghost walk: seq<nat>) returns (ok: bool, buf: seq<byte>)
      requires Valid()
      requires if walk == [] then first == 0 else first == walk[0] && InRange(Table(), walk[|walk| - 1])
      requires walk != [] ==> Linked(Table(), walk, Table()[walk[|walk| - 1]]) && IsEoc(bpb.TableWidth(), Table()[walk[|walk| - 1]])
      ensures ok && buf == FileBytes(Data(), walk)
    {
      ok, buf := true, [];
      var cluster := first;
      ghost var i := 0;
      while ok && !IsEoc(bpb.TableWidth(), cluster)
        invariant ok && 0 <= i <= |walk|
        invariant i < |walk| ==> cluster == walk[i] && !IsEoc(bpb.TableWidth(), cluster)
        invariant i == |walk| ==> IsEoc(bpb.TableWidth(), cluster)
        invariant buf == FileBytes(Data(), walk[..i])
        decreases |walk| - i
      {
        var data;
        ok, data := ReadCluster(cluster);
        assert walk[..i + 1] == walk[..i] + [cluster];
        FileBytesAppend(Data(), walk[..i], cluster);
        buf := buf + data;
        cluster := GetCluster(cluster);
        i := i + 1;
      }
      assert walk[..i] == walk;
    }

    /** Number of clusters WriteFile lays out for `fileSize` bytes. */
    function NewCount(fileSize: nat): nat
      requires bpb.Valid()
    {
      ClustersFitDisk(bpb);
      CeilDiv32(fileSize, bpb.ClusterSize())
    }

    /** The size WriteFile takes a file to have. */
    ghost function SizeOf(file: DirEntry, chain: seq<nat>): nat {
      if file.IsDirectory() then ExistingCount(file, chain) * bpb.ClusterSize() else file.fileSize
    }

    /** Lays `data` over the front of cluster `index` and keeps the rest of it. */
    method PatchCluster(index: nat, data: seq<byte>)
      requires Sized() && InRange(Table(), index) && |data| <= bpb.ClusterSize()
      modifies this`image
      ensures Sized()
      ensures Data() == old(Data())[index := data + old(Data())[index][|data|..]]
      ensures Meta() == old(Meta()) && Slack() == old(Slack())
    {
      var ok, buf := ReadCluster(index);
      ok := WriteCluster(index, data + buf[|data|..]);
    }

    /** One iteration of WriteFile that stores data: fills the cluster, then links it to the
        next cluster of the old chain, to a newly found one, or to the end mark. */
    method WriteOne(cluster: nat, data: seq<byte>, last: bool) returns (next: nat)
      requires Valid() && InRange(Table(), cluster) && |data| <= bpb.ClusterSize()
      requires FreeCount(Table()[cluster := RESERVED]) > 0 || last
      modifies this`image, fat
      ensures Valid() && Eoc() == old(Eoc())
      ensures Data() == old(Data())[cluster := data + old(Data())[cluster][|data|..]]
      ensures Meta() == old(Meta()) && Slack() == old(Slack())
      ensures Table() == old(Table())[cluster := if last then Eoc() else next]
      ensures next == if last then old(Table())[cluster] else Next(bpb.TableWidth(), old(Table()), cluster)
    {
      var w, eoc := bpb.TableWidth(), Eoc();
      ghost var t := Table();
      next := SetCluster(cluster, RESERVED);
      PatchCluster(cluster, data);
      if last {
        var _ := SetCluster(cluster, eoc);
      } else {
        if IsEoc(w, next) || next == FREE {
          next := FindNextFreeCluster();
        }
        var _ := SetCluster(cluster, next);
      }
      assert Table() == t[cluster := if last then eoc else next];
    }

    /** The image and the table are those of state `s`. */
    ghost predicate Shows(s: State)
      reads this, fat
    {
      Valid() && Table() == s.t && Data() == s.v
    }

    ghost predicate Serves(job: Job)
      reads this, fat
    {
      Valid() && Eoc() == job.eoc && job.w == bpb.TableWidth() && job.size == bpb.ClusterSize()
    }

    /** The body of the loop of WriteFile carries out `Step`. */
    method Iterate(i: nat, newCount: nat, cluster: nat, fileSize: nat, written: nat, buf: seq<byte>, ghost job: Job, ghost s: State)
      returns (next: nat, written': nat)
      requires Serves(job) && Shows(s) && CanStep(job, i, s) && cluster == s.cluster && written == s.written
      requires newCount == job.count && fileSize == job.fileSize && buf == job.buf
      requires i < job.count - 1 ==> FreeCount(s.t[cluster := RESERVED]) > 0
      modifies this`image, fat
      ensures Serves(job) && Shows(Step(job, i, s))
      ensures next == Step(job, i, s).cluster && written' == Step(job, i, s).written
      ensures Meta() == old(Meta()) && Slack() == old(Slack())
    {
      if i >= newCount {
        // the file has shrunk: free what is left of the old chain
        next := SetCluster(cluster, FREE);
        written' := written;
      } else {
        var chunk := Min(fileSize - written, bpb.ClusterSize());
        next := WriteOne(cluster, buf[written..written + chunk], i == newCount - 1);
        written' := written + chunk;
      }
    }

    /** An iteration takes the disk from one state of the run to the next. */
    method Round(i: nat, newCount: nat, cluster: nat, fileSize: nat, written: nat, buf: seq<byte>, ghost job: Job)
      returns (next: nat, written': nat)
      requires job.Given() && i < job.Total() && Serves(job) && Shows(Run(job, i))
      requires cluster == Run(job, i).cluster && written == Run(job, i).written
      requires newCount == job.count && fileSize == job.fileSize && buf == job.buf
      modifies this`image, fat
      ensures Serves(job) && Shows(Run(job, i + 1))
      ensures next == Run(job, i + 1).cluster && written' == Run(job, i + 1).written
      ensures Meta() == old(Meta()) && Slack() == old(Slack())
    {
      RunReady(job, i);
      next, written' := Iterate(i, newCount, cluster, fileSize, written, buf, job, Run(job, i));
    }

    /** The loop of WriteFile. */
    method WriteClusters(fileSize: nat, newCount: nat, totalCount: nat, first: nat, buf: seq<byte>, ghost job: Job)
      requires job.Given() && Serves(job) && Shows(Run(job, 0))
      requires newCount == job.count && fileSize == job.fileSize && buf == job.buf && first == job.first
      requires totalCount == job.Total()
      modifies this`image, fat
      ensures Serves(job) && Shows(Run(job, totalCount))
      ensures Meta() == old(Meta()) && Slack() == old(Slack())
    {
      var i, cluster, written := 0, first, 0;
      while i < totalCount
        invariant 0 <= i <= totalCount && Serves(job) && Shows(Run(job, i))
        invariant cluster == Run(job, i).cluster && written == Run(job, i).written
        invariant Meta() == old(Meta()) && Slack() == old(Slack())
      {
        cluster, written := Round(i, newCount, cluster, fileSize, written, buf, job);
        i := i + 1;
      }
      assert i == totalCount;
    }

    /** What a call of WriteFile on anything but the root directory has to start from. */
    ghost predicate CanWrite(file: DirEntry, buf: seq<byte>, chain: seq<nat>, others: seq<seq<nat>>)
      reads this, fat
    {
      && Valid() && Owns(Table(), file, chain) && |buf| >= SizeOf(file, chain)
      && Files(bpb.TableWidth(), Table(), others)
      && forall k | 0 <= k < |others| :: Disjoint(chain, others[k])
    }

    /** The call as the loop sees it, and that the loop can start. */
    lemma Prepare(file: DirEntry, buf: seq<byte>, chain: seq<nat>) returns (job: Job)
      requires Valid() && Owns(Table(), file, chain) && |buf| >= SizeOf(file, chain)
      requires !file.IsRoot() && !file.Refused() && NewCount(SizeOf(file, chain)) <= FreeCount(Table())
      ensures job == Job(bpb.TableWidth(), Table(), Data(), Eoc(), chain, file.firstCluster, buf,
                         SizeOf(file, chain), NewCount(SizeOf(file, chain)), bpb.ClusterSize())
      ensures job.Given() && Serves(job) && Shows(Run(job, 0))
      ensures job.Total() == Max(NewCount(SizeOf(file, chain)), ExistingCount(file, chain))
    {
      var w, size := bpb.TableWidth(), bpb.ClusterSize();
      if chain != [] { ChainDistinct(w, Table(), chain); }
      ClustersFitDisk(bpb);
      EmptyTakesNone(size);
      job := Job(w, Table(), Data(), Eoc(), chain, file.firstCluster, buf,
                 SizeOf(file, chain), NewCount(SizeOf(file, chain)), size);
    }

    /** WriteFile for anything but the root directory. */
    method StoreFile(file: DirEntry, buf: seq<byte>, ghost chain: seq<nat>) returns (ok: bool, ghost p: seq<nat>)
      requires Valid() && Owns(Table(), file, chain) && |buf| >= SizeOf(file, chain) && !file.IsRoot()
      modifies this, fat
      ensures Valid()
      ensures ok <==> !file.Refused() && old(NewCount(SizeOf(file, chain)) <= FreeCount(Table()))
      ensures !ok ==> fat[..] == old(fat[..]) && image == old(image) && dirty == old(dirty)
      ensures ok ==> dirty
      ensures ok ==> |p| == NewCount(SizeOf(file, chain)) && (p != [] ==> p[0] == file.firstCluster)
      ensures ok ==> Finished(old(Table()), Table(), chain, p, Eoc())
      ensures ok ==> Copied(old(Data()), Data(), p, buf, Stored(SizeOf(file, chain), |p|, bpb.ClusterSize()))
      ensures Meta() == old(Meta()) && Slack() == old(Slack())
    {
      p := [];
      if file.Refused() {
        return false, [];
      }
      var existingCount := CountClusters(file, chain);
      ClustersFitDisk(bpb);
      var fileSize := if file.IsDirectory() then existingCount * bpb.ClusterSize() else file.fileSize;
      var newCount := NewCount(fileSize);
      var free := CountFreeClusters();
      if newCount > free {
        return false, [];
      }
      ghost var job := Prepare(file, buf, chain);
      WriteClusters(fileSize, newCount, Max(newCount, existingCount), file.firstCluster, buf, job);
      RunDone(job);
      p := Run(job, job.Total()).p;
      dirty := true;
      ok := true;
    }

    /** WriteRoot: the root directory occupies fixed sectors in front of the data area. */
    method WriteRoot(buf: seq<byte>) returns (ok: bool)
      requires Valid() && |buf| >= bpb.Bytes(bpb.RootSectors())
      modifies this`image
      ensures Valid() && ok
      ensures Root() == buf[..bpb.Bytes(bpb.RootSectors())]
      ensures SameOutside(old(image), image, bpb.Bytes(bpb.RootStart()), bpb.DataStart())
    {
      BytesAdd(bpb, bpb.RootStart(), bpb.RootSectors());
      SectorsInDisk(bpb, bpb.RootStart(), bpb.RootSectors());
      ok := WriteSectors(bpb.RootStart(), bpb.RootSectors(), buf);
    }

    /** Stores the file's bytes. `chain` is the chain the file has (empty when its first cluster
        is free), `others` are the chains of all other files, `p` is the chain it gets. */
    method WriteFile(file: DirEntry, buf: seq<byte>, ghost chain: seq<nat>, ghost others: seq<seq<nat>>)
      returns (ok: bool, ghost p: seq<nat>)
      requires CanWrite(file, buf, chain, others)
      requires file.IsRoot() ==> |buf| >= bpb.Bytes(bpb.RootSectors())
      modifies this, fat
      ensures Valid()
      ensures ok <==> file.IsRoot() || (!file.Refused() && old(NewCount(SizeOf(file, chain)) <= FreeCount(Table())))
      // a refused write changes nothing
      ensures !ok ==> fat[..] == old(fat[..]) && image == old(image) && dirty == old(dirty)
      // a changed table is marked for writing
      ensures ok && !file.IsRoot() ==> dirty
      // the root directory: only its own sectors change
      ensures file.IsRoot() ==> fat[..] == old(fat[..]) && dirty == old(dirty) && Root() == buf[..bpb.Bytes(bpb.RootSectors())]
      ensures file.IsRoot() ==> SameOutside(old(image), image, bpb.Bytes(bpb.RootStart()), bpb.DataStart())
      // any other file: the volume stays a volume and free clusters are conserved
      ensures ok && !file.IsRoot() ==>
                && |p| == NewCount(SizeOf(file, chain)) && (p != [] ==> p[0] == file.firstCluster)
                && Files(bpb.TableWidth(), Table(), WithFile(p, others))
                && FreeCount(Table()) + |p| == old(FreeCount(Table())) + |chain|
      // its bytes are on disk, every other file's bytes and all metadata are as before
      ensures ok && !file.IsRoot() ==>
                && Copied(old(Data()), Data(), p, buf, Stored(SizeOf(file, chain), |p|, bpb.ClusterSize()))
                && SameBytes(old(Data()), Data(), others)
                && Meta() == old(Meta()) && Slack() == old(Slack())
      // the entry's first cluster is left free exactly when no cluster was written
      ensures ok && file.firstCluster != 0 ==> (Table()[file.firstCluster] == FREE <==> p == [])
    {
      p := [];
      if file.IsRoot() {
        ok := WriteRoot(buf);
        return;
      }
      ghost var t0, v0 := Table(), Data();
      ok, p := StoreFile(file, buf, chain);
      if ok {
        WriteKeepsFiles(bpb.TableWidth(), t0, Table(), chain, p, Eoc(), others);
        OthersKeepBytes(bpb.TableWidth(), t0, Table(), chain, p, Eoc(), others, v0, Data());
        FirstFree(bpb.TableWidth(), t0, Table(), chain, p, Eoc(), file.firstCluster);
      }
    }

    /** What was stored is what is read, as long as the 32-bit sum in CeilDiv does not wrap. When
        it does, the call succeeds and stores nothing. */
    method WriteThenRead(file: DirEntry, buf: seq<byte>, ghost chain: seq<nat>, ghost others: seq<seq<nat>>)
      returns (ok: bool, got: seq<byte>)
      requires CanWrite(file, buf, chain, others) && !file.IsRoot() && SizeOf(file, chain) < WORD32
      modifies this, fat
      ensures Valid()
      ensures ok <==> !file.Refused() && old(NewCount(SizeOf(file, chain)) <= FreeCount(Table()))
      ensures ok && SizeOf(file, chain) + bpb.ClusterSize() - 1 < WORD32 ==>
                SizeOf(file, chain) <= |got| && got[..SizeOf(file, chain)] == buf[..SizeOf(file, chain)]
      ensures ok && SizeOf(file, chain) + bpb.ClusterSize() - 1 >= WORD32 ==> Data() == old(Data())
    {
      ghost var size := SizeOf(file, chain);
      ClustersFitDisk(bpb);
      NewCountBounds(size, bpb.ClusterSize());
      if size + bpb.ClusterSize() - 1 >= WORD32 { WrappedTakesNone(size, bpb.ClusterSize()); }
      ghost var p;
      ok, p := WriteFile(file, buf, chain, others);
      if !ok {
        return false, [];
      }
      ok, got := ReadFile(file, p);
    }
  }
}
