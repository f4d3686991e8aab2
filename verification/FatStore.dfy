/**
 The file store as its users see it: a list of files and their contents. Writes to the disk
 refine updates of that list, over any number of calls.
 */
module FatStore {
  import opened Values
  import opened Arith
  import opened FatTable
  import opened FatChains
  import opened FatImage
  import opened FatLayout
  import opened FatWrite
  import opened FatDisk

  /** The directory entries of the files, the chains they own, and what they contain. */
  datatype Volume = Volume(files: seq<DirEntry>, chains: seq<seq<nat>>, contents: seq<seq<byte>>)

  /** A file or directory that holds something; the size field of a file is right. */
  ghost predicate Entry(file: DirEntry, chain: seq<nat>, content: seq<byte>) {
    && !file.IsRoot() && !file.Refused() && content != [] && (!file.IsDirectory() ==> file.fileSize == |content|)
    && chain != [] && chain[0] == file.firstCluster
  }

  /** The bytes of the chain start with the contents; those of a directory are all of them. */
  ghost predicate Contains(v: seq<seq<byte>>, file: DirEntry, chain: seq<nat>, content: seq<byte>) {
    && (forall j | 0 <= j < |chain| :: chain[j] < |v|)
    && content <= FileBytes(v, chain) && (file.IsDirectory() ==> content == FileBytes(v, chain))
  }

  /** A table and a data area that store the files of `vol`, each on a chain of its own. */
  ghost predicate Stores(w: Width, t: Table, v: seq<seq<byte>>, vol: Volume) {
    && |vol.files| == |vol.chains| == |vol.contents| && Files(w, t, vol.chains)
    && (forall k | 0 <= k < |vol.files| :: Entry(vol.files[k], vol.chains[k], vol.contents[k]))
    && (forall k | 0 <= k < |vol.files| :: Contains(v, vol.files[k], vol.chains[k], vol.contents[k]))
  }

  ghost predicate Represents(d: Disk, vol: Volume)
    reads d, d.fat
  {
    d.Valid() && Stores(d.bpb.TableWidth(), d.Table(), d.Data(), vol)
  }

  /** All items but number `k`. */
  function Except<T>(s: seq<T>, k: nat): (r: seq<T>)
    requires k < |s|
    ensures |r| == |s| - 1
    ensures forall i | 0 <= i < k :: r[i] == s[i]
    ensures forall i | k < i < |s| :: r[i - 1] == s[i]
  {
    s[..k] + s[k + 1..]
  }

  lemma ExceptFiles(w: Width, t: Table, chains: seq<seq<nat>>, k: nat)
    requires Files(w, t, chains) && k < |chains|
    ensures Files(w, t, Except(chains, k))
    ensures forall i | 0 <= i < |chains| - 1 :: Disjoint(chains[k], Except(chains, k)[i])
  {
    var others := Except(chains, k);
    forall i | 0 <= i < |others| ensures IsChain(w, t, others[i]) && Disjoint(chains[k], others[i]) {
      if i < k { assert Disjoint(chains[i], chains[k]); } else { assert Disjoint(chains[k], chains[i + 1]); }
    }
    forall i, j | 0 <= i < j < |others| ensures Disjoint(others[i], others[j]) {
      var i', j' := if i < k then i else i + 1, if j < k then j else j + 1;
      assert Disjoint(chains[i'], chains[j']);
    }
  }

  /** A chain put in front of the others may as well stand at position `k`. */
  lemma ReplacedFiles(w: Width, t: Table, chains: seq<seq<nat>>, k: nat, p: seq<nat>)
    requires k < |chains| && p != [] && Files(w, t, WithFile(p, Except(chains, k)))
    ensures Files(w, t, chains[k := p])
  {
    var all, r := [p] + Except(chains, k), chains[k := p];
    forall i | 0 <= i < |r| ensures IsChain(w, t, r[i]) {
      assert IsChain(w, t, all[if i < k then i + 1 else if i == k then 0 else i]);
    }
    forall i, j | 0 <= i < j < |r| ensures Disjoint(r[i], r[j]) {
      var i', j' := if i < k then i + 1 else if i == k then 0 else i, if j < k then j + 1 else if j == k then 0 else j;
      assert Disjoint(all[if i' < j' then i' else j'], all[if i' < j' then j' else i']);
    }
  }

  lemma AppendedFiles(w: Width, t: Table, chains: seq<seq<nat>>, p: seq<nat>)
    requires p != [] && Files(w, t, WithFile(p, chains))
    ensures Files(w, t, chains + [p])
  {
    var all, r := [p] + chains, chains + [p];
    forall i | 0 <= i < |r| ensures IsChain(w, t, r[i]) {
      assert IsChain(w, t, all[if i < |chains| then i + 1 else 0]);
    }
    forall i, j | 0 <= i < j < |r| ensures Disjoint(r[i], r[j]) {
      if j < |chains| { assert Disjoint(all[i + 1], all[j + 1]); } else { assert Disjoint(all[0], all[i + 1]); }
    }
  }

  lemma SameContents(v0: seq<seq<byte>>, v: seq<seq<byte>>, chains: seq<seq<nat>>, k: nat, file: DirEntry, content: seq<byte>)
    requires SameBytes(v0, v, chains) && k < |chains| && Contains(v0, file, chains[k], content)
    ensures Contains(v, file, chains[k], content)
  {
  }

  /** Whole clusters need exactly that many clusters. */
  lemma WholeClusters(n: nat, size: nat)
    requires 0 < size < WORD32 && n * size + size - 1 < WORD32
    ensures CeilDiv32(n * size, size) == n
  {
    DivUnique(n * size + size - 1, size, n, size - 1);
  }

  /** What was copied is what the file contains. A directory is written in whole clusters. */
  lemma Copies(v0: seq<seq<byte>>, v: seq<seq<byte>>, file: DirEntry, p: seq<nat>, buf: seq<byte>, size: nat, whole: nat)
    requires 0 < size < WORD32 && |buf| + size - 1 < WORD32 && |p| == CeilDiv32(|buf|, size)
    requires Copied(v0, v, p, buf, Stored(|buf|, |p|, size))
    requires file.IsDirectory() ==> |buf| == whole * size && forall j | 0 <= j < |p| :: |v[p[j]]| == size
    ensures Contains(v, file, p, buf)
  {
    NewCountBounds(|buf|, size);
    assert buf[..|buf|] == buf;
    if file.IsDirectory() {
      WholeClusters(whole, size);
      FileBytesLength(v, p, size);
    }
  }

  /** The store after file `k` has been written to chain `p`. */
  lemma StoresReplaced(w: Width, t0: Table, t: Table, v0: seq<seq<byte>>, v: seq<seq<byte>>,
                       vol: Volume, k: nat, file: DirEntry, p: seq<nat>, buf: seq<byte>)
    requires Stores(w, t0, v0, vol) && k < |vol.files| && Entry(file, p, buf) && Contains(v, file, p, buf)
    requires Files(w, t, WithFile(p, Except(vol.chains, k))) && SameBytes(v0, v, Except(vol.chains, k))
    ensures Stores(w, t, v, Volume(vol.files[k := file], vol.chains[k := p], vol.contents[k := buf]))
  {
    ReplacedFiles(w, t, vol.chains, k, p);
    forall i | 0 <= i < |vol.files| && i != k ensures Contains(v, vol.files[i], vol.chains[i], vol.contents[i]) {
      assert Contains(v0, vol.files[i], vol.chains[i], vol.contents[i]);
      SameContents(v0, v, Except(vol.chains, k), if i < k then i else i - 1, vol.files[i], vol.contents[i]);
    }
  }

  lemma StoresAdded(w: Width, t0: Table, t: Table, v0: seq<seq<byte>>, v: seq<seq<byte>>,
                    vol: Volume, file: DirEntry, p: seq<nat>, buf: seq<byte>)
    requires Stores(w, t0, v0, vol) && Entry(file, p, buf) && Contains(v, file, p, buf)
    requires Files(w, t, WithFile(p, vol.chains)) && SameBytes(v0, v, vol.chains)
    ensures Stores(w, t, v, Volume(vol.files + [file], vol.chains + [p], vol.contents + [buf]))
  {
    AppendedFiles(w, t, vol.chains, p);
    StoresKept(w, t0, t, v0, v, vol);
  }

  /** A change that no file notices. */
  lemma StoresKept(w: Width, t0: Table, t: Table, v0: seq<seq<byte>>, v: seq<seq<byte>>, vol: Volume)
    requires Stores(w, t0, v0, vol) && SameBytes(v0, v, vol.chains)
    ensures forall i | 0 <= i < |vol.files| :: Contains(v, vol.files[i], vol.chains[i], vol.contents[i])
    ensures Files(w, t, vol.chains) ==> Stores(w, t, v, vol)
  {
    forall i | 0 <= i < |vol.files| ensures Contains(v, vol.files[i], vol.chains[i], vol.contents[i]) {
      SameContents(v0, v, vol.chains, i, vol.files[i], vol.contents[i]);
    }
  }

  /** The store without file `k`. */
  function Removed(vol: Volume, k: nat): Volume
    requires k < |vol.files| == |vol.chains| == |vol.contents|
  {
    Volume(Except(vol.files, k), Except(vol.chains, k), Except(vol.contents, k))
  }

  lemma StoresRemoved(w: Width, t0: Table, t: Table, v0: seq<seq<byte>>, v: seq<seq<byte>>, vol: Volume, k: nat)
    requires Stores(w, t0, v0, vol) && k < |vol.files|
    requires Files(w, t, Except(vol.chains, k)) && SameBytes(v0, v, Except(vol.chains, k))
    ensures Stores(w, t, v, Removed(vol, k))
  {
    var files, chains, contents := Except(vol.files, k), Except(vol.chains, k), Except(vol.contents, k);
    forall i | 0 <= i < |files| ensures Entry(files[i], chains[i], contents[i]) && Contains(v, files[i], chains[i], contents[i]) {
      OneKept(v0, v, vol, k, i);
    }
  }

  lemma OneKept(v0: seq<seq<byte>>, v: seq<seq<byte>>, vol: Volume, k: nat, i: nat)
    requires |vol.files| == |vol.chains| == |vol.contents| && k < |vol.files| && i < |vol.files| - 1
    requires var j := if i < k then i else i + 1;
             Entry(vol.files[j], vol.chains[j], vol.contents[j]) && Contains(v0, vol.files[j], vol.chains[j], vol.contents[j])
    requires SameBytes(v0, v, Except(vol.chains, k))
    ensures Entry(Except(vol.files, k)[i], Except(vol.chains, k)[i], Except(vol.contents, k)[i])
    ensures Contains(v, Except(vol.files, k)[i], Except(vol.chains, k)[i], Except(vol.contents, k)[i])
  {
    SameContents(v0, v, Except(vol.chains, k), i, Except(vol.files, k)[i], Except(vol.contents, k)[i]);
  }

  /** WriteFile on file `k` replaces its contents; a directory keeps its size, a file may get any
      other. It is refused exactly when the disk has too few free clusters. When the 32-bit sum in
      CeilDiv wraps, the file loses its clusters instead. Every other file keeps its contents. */
  method Replace(d: Disk, k: nat, file: DirEntry, buf: seq<byte>, ghost vol: Volume) returns (ok: bool, ghost vol': Volume)
    requires Represents(d, vol) && d.Saved() && k < |vol.files| && file == vol.files[k].(fileSize := file.fileSize)
    requires buf != [] && |buf| == d.SizeOf(file, vol.chains[k]) < WORD32
    modifies d, d.fat
    ensures Represents(d, vol') && d.Saved()
    ensures ok <==> CeilDiv32(|buf|, d.bpb.ClusterSize()) <= old(FreeCount(d.Table()))
    ensures !ok ==> vol' == vol
    ensures ok && |buf| + d.bpb.ClusterSize() - 1 < WORD32 ==>
              vol'.files == vol.files[k := file] && vol'.contents == vol.contents[k := buf]
    ensures ok && |buf| + d.bpb.ClusterSize() - 1 >= WORD32 ==> vol' == Removed(vol, k)
  {
    vol' := vol;
    ghost var w, others, t0, v0 := d.bpb.TableWidth(), Except(vol.chains, k), d.Table(), d.Data();
    ExceptFiles(w, t0, vol.chains, k);
    assert Entry(vol.files[k], vol.chains[k], vol.contents[k]) && IsChain(w, t0, vol.chains[k]);
    ClustersFitDisk(d.bpb);
    ghost var p;
    ok, p := d.WriteFile(file, buf, vol.chains[k], others);
    if ok {
      vol' := AfterReplace(d, vol, k, file, buf, p, w, t0, v0);
    }
  }

  lemma AfterReplace(d: Disk, vol: Volume, k: nat, file: DirEntry, buf: seq<byte>, p: seq<nat>, w: Width, t0: Table, v0: seq<seq<byte>>)
    returns (vol': Volume)
    requires d.Valid() && w == d.bpb.TableWidth() && Stores(w, t0, v0, vol) && k < |vol.files|
    requires file == vol.files[k].(fileSize := file.fileSize) && buf != [] && |buf| == d.SizeOf(file, vol.chains[k]) < WORD32
    requires |p| == CeilDiv32(|buf|, d.bpb.ClusterSize()) && (p != [] ==> p[0] == file.firstCluster)
    requires Files(w, d.Table(), WithFile(p, Except(vol.chains, k))) && SameBytes(v0, d.Data(), Except(vol.chains, k))
    requires Copied(v0, d.Data(), p, buf, Stored(|buf|, |p|, d.bpb.ClusterSize()))
    ensures Represents(d, vol')
    ensures if |buf| + d.bpb.ClusterSize() - 1 < WORD32
            then vol'.files == vol.files[k := file] && vol'.contents == vol.contents[k := buf]
            else vol' == Removed(vol, k)
  {
    var size, v := d.bpb.ClusterSize(), d.Data();
    ClustersFitDisk(d.bpb);
    assert Entry(vol.files[k], vol.chains[k], vol.contents[k]);
    if |buf| + size - 1 < WORD32 {
      NewCountBounds(|buf|, size);
      SizedClusters(w, d.Table(), v, p, Except(vol.chains, k), size);
      Copies(v0, v, file, p, buf, size, |vol.chains[k]|);
      StoresReplaced(w, t0, d.Table(), v0, v, vol, k, file, p, buf);
      vol' := Volume(vol.files[k := file], vol.chains[k := p], vol.contents[k := buf]);
    } else {
      WrappedTakesNone(|buf|, size);
      StoresRemoved(w, t0, d.Table(), v0, v, vol, k);
      vol' := Removed(vol, k);
    }
  }

  lemma SizedClusters(w: Width, t: Table, v: seq<seq<byte>>, p: seq<nat>, others: seq<seq<nat>>, size: nat)
    requires Files(w, t, WithFile(p, others)) && p != [] && |v| == |t| && forall c | FIRST <= c < |v| :: |v[c]| == size
    ensures forall j | 0 <= j < |p| :: p[j] < |v| && |v[p[j]]| == size
  {
    assert IsChain(w, t, WithFile(p, others)[0]);
  }

  /** WriteFile on an entry whose first cluster is free adds a file, or a directory of one cluster.
      When the 32-bit sum wraps it reports success and adds nothing. */
  method Add(d: Disk, file: DirEntry, buf: seq<byte>, ghost vol: Volume) returns (ok: bool, ghost vol': Volume)
    requires Represents(d, vol) && d.Saved() && !file.IsRoot() && !file.Refused()
    requires InRange(d.Table(), file.firstCluster) && d.Table()[file.firstCluster] == FREE
    requires buf != [] && |buf| == d.SizeOf(file, []) < WORD32
    modifies d, d.fat
    ensures Represents(d, vol') && d.Saved()
    ensures ok <==> CeilDiv32(|buf|, d.bpb.ClusterSize()) <= old(FreeCount(d.Table()))
    ensures ok && |buf| + d.bpb.ClusterSize() - 1 < WORD32 ==>
              vol'.files == vol.files + [file] && vol'.contents == vol.contents + [buf]
    ensures !ok || |buf| + d.bpb.ClusterSize() - 1 >= WORD32 ==> vol' == vol
  {
    vol' := vol;
    ghost var w, t0, v0 := d.bpb.TableWidth(), d.Table(), d.Data();
    ClustersFitDisk(d.bpb);
    ghost var p;
    ok, p := d.WriteFile(file, buf, [], vol.chains);
    if ok {
      vol' := AfterAdd(d, vol, file, buf, p, w, t0, v0);
    }
  }

  lemma AfterAdd(d: Disk, vol: Volume, file: DirEntry, buf: seq<byte>, p: seq<nat>, w: Width, t0: Table, v0: seq<seq<byte>>)
    returns (vol': Volume)
    requires d.Valid() && w == d.bpb.TableWidth() && Stores(w, t0, v0, vol)
    requires !file.IsRoot() && !file.Refused() && file.firstCluster != 0 && buf != [] && |buf| == d.SizeOf(file, []) < WORD32
    requires |p| == CeilDiv32(|buf|, d.bpb.ClusterSize()) && (p != [] ==> p[0] == file.firstCluster)
    requires Files(w, d.Table(), WithFile(p, vol.chains)) && SameBytes(v0, d.Data(), vol.chains)
    requires Copied(v0, d.Data(), p, buf, Stored(|buf|, |p|, d.bpb.ClusterSize()))
    ensures Represents(d, vol')
    ensures if |buf| + d.bpb.ClusterSize() - 1 < WORD32
            then vol'.files == vol.files + [file] && vol'.contents == vol.contents + [buf] else vol' == vol
  {
    var size, v := d.bpb.ClusterSize(), d.Data();
    ClustersFitDisk(d.bpb);
    if |buf| + size - 1 < WORD32 {
      NewCountBounds(|buf|, size);
      SizedClusters(w, d.Table(), v, p, vol.chains, size);
      Copies(v0, v, file, p, buf, size, 1);
      StoresAdded(w, t0, d.Table(), v0, v, vol, file, p, buf);
      vol' := Volume(vol.files + [file], vol.chains + [p], vol.contents + [buf]);
    } else {
      WrappedTakesNone(|buf|, size);
      StoresKept(w, t0, d.Table(), v0, v, vol);
      vol' := vol;
    }
  }

  /** WriteFile with size zero gives all clusters of file `k` back; the others stay. */
  method Empty(d: Disk, k: nat, file: DirEntry, ghost vol: Volume) returns (ok: bool, ghost vol': Volume)
    requires Represents(d, vol) && d.Saved() && k < |vol.files| && !file.IsDirectory() && file == vol.files[k].(fileSize := 0)
    modifies d, d.fat
    ensures Represents(d, vol') && d.Saved() && ok
    ensures vol' == Removed(vol, k)
    ensures FreeCount(d.Table()) == old(FreeCount(d.Table())) + |vol.chains[k]|
  {
    ghost var w, others, t0, v0 := d.bpb.TableWidth(), Except(vol.chains, k), d.Table(), d.Data();
    ExceptFiles(w, t0, vol.chains, k);
    assert Entry(vol.files[k], vol.chains[k], vol.contents[k]) && IsChain(w, t0, vol.chains[k]);
    ClustersFitDisk(d.bpb);
    EmptyTakesNone(d.bpb.ClusterSize());
    ghost var p;
    ok, p := d.WriteFile(file, [], vol.chains[k], others);
    StoresRemoved(w, t0, d.Table(), v0, d.Data(), vol, k);
    vol' := Removed(vol, k);
  }

  /** ReadFile on file `k` returns its contents. */
  method Fetch(d: Disk, k: nat, file: DirEntry, ghost vol: Volume) returns (content: seq<byte>)
    requires Represents(d, vol) && k < |vol.files| && file == vol.files[k]
    ensures content == vol.contents[k]
  {
    assert Entry(file, vol.chains[k], vol.contents[k]) && Contains(d.Data(), file, vol.chains[k], vol.contents[k]);
    assert IsChain(d.bpb.TableWidth(), d.Table(), vol.chains[k]);
    var ok, got := d.ReadFile(file, vol.chains[k]);
    content := if file.IsDirectory() then got else got[..file.fileSize];
  }

  /** Closing the disk and opening its image again, as often as one likes, keeps every file. */
  method Reopen(d: Disk, marked: bool, ghost vol: Volume) returns (e: Disk)
    requires Represents(d, vol) && d.Saved() && d.bpb.tableCount > 0
    modifies d
    ensures fresh(e) && fresh(e.fat) && e.bpb == d.bpb && e.Valid() && e.Saved()
    ensures e.Table() == old(d.Table()) && e.Data() == old(d.Data())
    ensures Represents(e, vol)
  {
    d.Close();
    e := new Disk.Open(d.bpb, d.image, marked);
  }
}
