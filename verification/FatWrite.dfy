/**
 The loop of FatDisk::WriteFile as a function of the iteration number, and what it has done
 to the table and to the data area after any number of iterations.
 */
module FatWrite {
  import opened Values
  import opened Arith
  import opened FatTable
  import opened FatChains
  import opened FatImage
  import opened FatLayout

  function Max(x: nat, y: nat): nat { if x > y then x else y }
  function Min(x: nat, y: nat): nat { if x < y then x else y }

  /** Bytes of the caller's buffer that `count` clusters can take. */
  function Stored(fileSize: nat, count: nat, size: nat): nat { Min(fileSize, count * size) }

  /** The file made of clusters `p` starts with the first `written` bytes of `buf`, and no
      cluster outside `p` has changed. */
  ghost predicate Copied(v0: seq<seq<byte>>, v: seq<seq<byte>>, p: seq<nat>, buf: seq<byte>, written: nat) {
    && |v| == |v0| && written <= |buf|
    && (forall j | 0 <= j < |p| :: p[j] < |v|)
    && (forall c | 0 <= c < |v| && c !in p :: v[c] == v0[c])
    && written <= |FileBytes(v, p)| && FileBytes(v, p)[..written] == buf[..written]
  }

  /** Data side of the loop after `|p|` clusters: all of them full except perhaps the last. */
  ghost predicate Copying(v0: seq<seq<byte>>, v: seq<seq<byte>>, p: seq<nat>, buf: seq<byte>,
                          fileSize: nat, count: nat, size: nat, written: nat) {
    && Copied(v0, v, p, buf, written) && fileSize <= |buf| && |p| <= count
    && (forall c | FIRST <= c < |v| :: |v[c]| == size)
    && written == Stored(fileSize, |p|, size)
    && (|p| < count ==> written < fileSize && FileBytes(v, p) == buf[..written] && written == |p| * size)
  }

  lemma StartCopy(v: seq<seq<byte>>, buf: seq<byte>, fileSize: nat, count: nat, size: nat)
    requires 0 < size < WORD32 && count == CeilDiv32(fileSize, size) && fileSize <= |buf|
    requires forall c | FIRST <= c < |v| :: |v[c]| == size
    ensures Copying(v, v, [], buf, fileSize, count, size, 0)
  {
    NewCountBounds(fileSize, size);
  }

  lemma StepCopy(v0: seq<seq<byte>>, v: seq<seq<byte>>, v': seq<seq<byte>>, p: seq<nat>, c: nat, buf: seq<byte>,
                 fileSize: nat, count: nat, size: nat, written: nat)
    requires 0 < size < WORD32 && count == CeilDiv32(fileSize, size)
    requires Copying(v0, v, p, buf, fileSize, count, size, written) && |p| < count
    requires FIRST <= c < |v| && c !in p && forall j | 0 <= j < |p| :: FIRST <= p[j]
    requires var data := buf[written..written + Min(fileSize - written, size)];
             v' == v[c := data + v[c][|data|..]]
    ensures Copying(v0, v', p + [c], buf, fileSize, count, size, written + Min(fileSize - written, size))
  {
    var chunk := Min(fileSize - written, size);
    WriteExtends(v, v', p, c, buf, written, chunk, size);
    assert (|p| + 1) * size == |p| * size + size;
    if |p| + 1 < count {
      NewCountBounds(fileSize, size);
      MulLe(|p| + 1, count - 1, size);
      var f := FileBytes(v', p + [c]);
      assert f[..|f|] == f;
    }
  }

  lemma EmptyTakesNone(size: nat)
    requires 0 < size < WORD32
    ensures CeilDiv32(0, size) == 0
  {
    assert (size - 1) % WORD32 == size - 1;
  }

  lemma NewCountBounds(fileSize: nat, size: nat)
    requires 0 < size < WORD32
    ensures var n := CeilDiv32(fileSize, size);
            && (n > 0 ==> (n - 1) * size < fileSize)
            && (fileSize + size - 1 < WORD32 ==> fileSize <= n * size)
  {
    var sum := (fileSize + size - 1) % WORD32;
    var n := sum / size;
    assert n * size <= sum < n * size + size;
    assert sum <= fileSize + size - 1;
    assert (n - 1) * size == n * size - size;
  }

  /** One call of WriteFile: the state it starts from and what it is asked to store. `chain` is
      the chain the file has, empty when its first cluster is free; `count` is the number of
      clusters it is to get. */
  datatype Job = Job(
    w: Width, t0: Table, v0: seq<seq<byte>>, eoc: nat,
    chain: seq<nat>, first: nat, buf: seq<byte>, fileSize: nat, count: nat, size: nat)
  {
    /** Number of iterations: enough to write the new chain and to walk off the old one. */
    function Total(): nat { Max(count, if first == 0 then 0 else if chain == [] then 1 else |chain|) }

    ghost predicate Given() {
      && Addressable(w, t0) && OldChain(w, t0, chain) && IsTail(w, eoc) && |t0| == |v0|
      && 0 < size < WORD32 && count == CeilDiv32(fileSize, size) <= FreeCount(t0)
      && (forall c | FIRST <= c < |v0| :: |v0[c]| == size)
      && fileSize <= |buf| && (first == 0 ==> count == 0)
      && (if chain == [] then first == 0 || (InRange(t0, first) && t0[first] == FREE) else first == chain[0])
    }
  }

  /** Variables of the loop: table, cluster contents, current cluster, bytes written so far,
      and the clusters written so far. */
  datatype State = State(t: Table, v: seq<seq<byte>>, cluster: nat, written: nat, p: seq<nat>)

  /** The iteration can touch its cluster and has bytes left to take. */
  predicate CanStep(job: Job, i: nat, s: State) {
    && InRange(s.t, s.cluster) && s.cluster < |s.v|
    && (i < job.count ==> s.written <= job.fileSize <= |job.buf| && |s.v[s.cluster]| >= job.size)
  }

  /** The part of the buffer the iteration stores. */
  function Chunk(job: Job, written: nat): seq<byte>
    requires written <= job.fileSize <= |job.buf|
  {
    job.buf[written..written + Min(job.fileSize - written, job.size)]
  }

  /** The successor of `cluster`: along the old chain while it lasts, else the lowest free
      cluster; `cluster` itself is marked RESERVED meanwhile. */
  function Next(w: Width, t: Table, cluster: nat): nat
    requires InRange(t, cluster)
  {
    if IsEoc(w, t[cluster]) then NextFree(t[cluster := RESERVED], FIRST) else t[cluster]
  }

  function Step(job: Job, i: nat, s: State): State
    requires CanStep(job, i, s)
  {
    var c := s.cluster;
    if i >= job.count then
      s.(t := s.t[c := FREE], cluster := s.t[c])
    else
      var data := Chunk(job, s.written);
      var next := if i == job.count - 1 then s.t[c] else Next(job.w, s.t, c);
      State(s.t[c := if i == job.count - 1 then job.eoc else next],
            s.v[c := data + s.v[c][|data|..]], next, s.written + |data|, s.p + [c])
  }

  /** State before iteration `i`. */
  ghost function Run(job: Job, i: nat): State
  {
    if i == 0 then State(job.t0, job.v0, job.first, 0, [])
    else var s := Run(job, i - 1); if CanStep(job, i - 1, s) then Step(job, i - 1, s) else s
  }

  ghost predicate TableAt(job: Job, i: nat, s: State) {
    && |s.p| == Min(i, job.count) && (i > 0 && job.count > 0 ==> s.p[0] == job.first)
    && (i == 0 ==> s.cluster == job.first)
    && (if i < job.count then Writing(job.t0, s.t, job.chain, s.p, s.cluster)
        else Trimming(job.t0, s.t, job.chain, s.p, job.eoc, i))
    && (job.count <= i < |job.chain| ==> s.cluster == job.chain[i])
  }

  ghost predicate DataAt(job: Job, s: State) {
    && (forall j | 0 <= j < |s.p| :: FIRST <= s.p[j])
    && Copying(job.v0, s.v, s.p, job.buf, job.fileSize, job.count, job.size, s.written)
  }

  lemma FreeTable(job: Job, i: nat, s: State)
    requires job.Given() && TableAt(job, i, s) && job.count <= i < job.Total()
    ensures InRange(s.t, s.cluster)
    ensures TableAt(job, i + 1, s.(t := s.t[s.cluster := FREE], cluster := s.t[s.cluster]))
  {
    if job.chain != [] {
      StepTrim(job.w, job.t0, s.t, job.chain, s.p, job.eoc, i);
    } else {
      assert s.t == job.t0;
      assert s.t[s.cluster := FREE] == s.t;
    }
  }

  lemma StoreReady(job: Job, i: nat, s: State)
    requires job.Given() && TableAt(job, i, s) && DataAt(job, s) && i < job.count
    ensures CanStep(job, i, s) && s.written < job.fileSize
    ensures i < job.count - 1 ==> FreeCount(s.t[s.cluster := RESERVED]) > 0
    ensures i < job.count - 1 ==> GoesOn(job.w, s.t, s.cluster, Next(job.w, s.t, s.cluster))
  {
    if i < job.count - 1 {
      EnoughFree(job.t0, s.t, job.chain, s.p, s.cluster);
      FreeExists(s.t[s.cluster := RESERVED]);
    }
  }

  lemma StoreTable(job: Job, i: nat, s: State)
    requires job.Given() && TableAt(job, i, s) && i < job.count && CanStep(job, i, s)
    requires i < job.count - 1 ==> GoesOn(job.w, s.t, s.cluster, Next(job.w, s.t, s.cluster))
    ensures TableAt(job, i + 1, Step(job, i, s))
  {
    if i == job.count - 1 {
      StepLast(job.w, job.t0, s.t, job.chain, s.p, s.cluster, job.eoc);
    } else {
      StepWriting(job.w, job.t0, s.t, job.chain, s.p, s.cluster, Next(job.w, s.t, s.cluster));
    }
  }

  lemma StoreData(job: Job, i: nat, s: State)
    requires job.Given() && DataAt(job, s) && i < job.count && CanStep(job, i, s)
    requires |s.p| < job.count && s.cluster !in s.p && s.written < job.fileSize
    ensures DataAt(job, Step(job, i, s))
  {
    var s' := Step(job, i, s);
    StepCopy(job.v0, s.v, s'.v, s.p, s.cluster, job.buf, job.fileSize, job.count, job.size, s.written);
  }

  lemma StepHolds(job: Job, i: nat, s: State)
    requires job.Given() && TableAt(job, i, s) && DataAt(job, s) && i < job.Total()
    ensures CanStep(job, i, s)
    ensures TableAt(job, i + 1, Step(job, i, s)) && DataAt(job, Step(job, i, s))
  {
    if i < job.count {
      StoreReady(job, i, s);
      StoreTable(job, i, s);
      StoreData(job, i, s);
    } else {
      FreeTable(job, i, s);
    }
  }

  lemma StartHolds(job: Job)
    requires job.Given()
    ensures TableAt(job, 0, Run(job, 0)) && DataAt(job, Run(job, 0))
  {
    StartTrimming(job.t0, job.chain, job.eoc);
    StartCopy(job.v0, job.buf, job.fileSize, job.count, job.size);
  }

  ghost predicate HoldsAt(job: Job, i: nat) { TableAt(job, i, Run(job, i)) && DataAt(job, Run(job, i)) }

  lemma RunOn(job: Job, i: nat)
    requires job.Given() && i < job.Total() && HoldsAt(job, i)
    ensures HoldsAt(job, i + 1)
  {
    var s := Run(job, i);
    StepHolds(job, i, s);
    assert Run(job, i + 1) == Step(job, i, s);
  }

  /** Every iteration can be carried out: its cluster is in range, the buffer is not exhausted
      and a free cluster is found whenever one is needed. */
  lemma {:induction false} RunHolds(job: Job, i: nat)
    requires job.Given() && i <= job.Total()
    ensures TableAt(job, i, Run(job, i)) && DataAt(job, Run(job, i)) && HoldsAt(job, i)
  {
    if i == 0 {
      StartHolds(job);
    } else {
      RunHolds(job, i - 1);
      RunOn(job, i - 1);
    }
  }

  /** What one iteration of the running loop may rely on. */
  lemma RunReady(job: Job, i: nat)
    requires job.Given() && i < job.Total()
    ensures CanStep(job, i, Run(job, i)) && Run(job, i + 1) == Step(job, i, Run(job, i))
    ensures i < job.count ==> |Chunk(job, Run(job, i).written)| <= job.size
    ensures i < job.count - 1 ==> FreeCount(Run(job, i).t[Run(job, i).cluster := RESERVED]) > 0
  {
    RunHolds(job, i);
    if i < job.count { StoreReady(job, i, Run(job, i)); } else { FreeTable(job, i, Run(job, i)); }
  }

  /** What the whole loop has done. */
  lemma RunDone(job: Job)
    requires job.Given()
    ensures var s := Run(job, job.Total());
            && Finished(job.t0, s.t, job.chain, s.p, job.eoc) && |s.p| == job.count
            && (job.count > 0 ==> s.p[0] == job.first)
            && Copied(job.v0, s.v, s.p, job.buf, Stored(job.fileSize, job.count, job.size))
  {
    RunHolds(job, job.Total());
  }

  /** Each of the files reads the same from both data areas. */
  ghost predicate SameBytes(v0: seq<seq<byte>>, v: seq<seq<byte>>, files: seq<seq<nat>>) {
    && |v| == |v0|
    && (forall k, j | 0 <= k < |files| && 0 <= j < |files[k]| :: files[k][j] < |v|)
    && (forall k | 0 <= k < |files| :: FileBytes(v, files[k]) == FileBytes(v0, files[k]))
  }

  /** Files that share no cluster with the written one keep their bytes. */
  lemma OthersKeepBytes(w: Width, t0: Table, t: Table, chain: seq<nat>, p: seq<nat>, eoc: nat, others: seq<seq<nat>>,
                        v0: seq<seq<byte>>, v: seq<seq<byte>>)
    requires Finished(t0, t, chain, p, eoc) && Files(w, t0, others) && |t0| == |v0| == |v|
    requires forall k | 0 <= k < |others| :: Disjoint(chain, others[k])
    requires forall c | 0 <= c < |v| && c !in p :: v[c] == v0[c]
    ensures SameBytes(v0, v, others)
  {
    WriteKeepsOthers(w, t0, t, chain, p, eoc, others);
    forall k | 0 <= k < |others|
      ensures (forall j | 0 <= j < |others[k]| :: others[k][j] < |v|) && FileBytes(v, others[k]) == FileBytes(v0, others[k])
    {
      var c := others[k];
      assert IsChain(w, t, c) && Disjoint(p, c);
      forall j | 0 <= j < |c| ensures c[j] < |v| && v0[c[j]] == v[c[j]] {
        assert c[j] in c;
      }
      FileBytesSame(v0, v, c);
    }
  }

  /** Writing no cluster leaves the entry pointing at a cluster that is free. */
  lemma FirstFree(w: Width, t0: Table, t: Table, chain: seq<nat>, p: seq<nat>, eoc: nat, first: nat)
    requires Finished(t0, t, chain, p, eoc) && Addressable(w, t0) && IsTail(w, eoc)
    requires if chain == [] then first == 0 || (InRange(t0, first) && t0[first] == FREE) else first == chain[0]
    requires p != [] ==> p[0] == first
    ensures first != 0 ==> first < |t| && (t[first] == FREE <==> p == [])
  {
    if p != [] {
      assert t[p[0]] == eoc || (|p| > 1 && InRange(t, p[1]) && t[p[0]] == p[1]);
    }
  }

  /** The number of clusters laid out covers the file, and by less than one cluster too much,
      exactly when the 32-bit sum in CeilDiv does not wrap. */
  lemma NewCountExact(fileSize: nat, size: nat)
    requires 0 < size < WORD32 && fileSize < WORD32
    ensures var n := CeilDiv32(fileSize, size);
            fileSize + size - 1 < WORD32 <==> (fileSize <= n * size && n * size < fileSize + size)
  {
    NewCountBounds(fileSize, size);
    var n, sum := CeilDiv32(fileSize, size), (fileSize + size - 1) % WORD32;
    assert n * size <= sum < n * size + size;
    if fileSize + size - 1 >= WORD32 {
      assert sum == fileSize + size - 1 - WORD32;
    }
  }

  /** When the sum wraps the file is given no cluster at all. */
  lemma WrappedTakesNone(fileSize: nat, size: nat)
    requires 0 < size < WORD32 && fileSize < WORD32 <= fileSize + size - 1
    ensures CeilDiv32(fileSize, size) == 0
  {
    assert (fileSize + size - 1) % WORD32 == fileSize + size - 1 - WORD32;
    DivUnique(fileSize + size - 1 - WORD32, size, 0, fileSize + size - 1 - WORD32);
  }

  /** A file of 2^32 - 1 bytes is given no cluster at all. */
  lemma LargestFileGetsNothing()
    ensures CeilDiv32(0xFFFF_FFFF, 512) == 0
  {
  }
}
