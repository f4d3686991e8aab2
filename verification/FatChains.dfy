/**
 Cluster chains over the abstract table, and what the loop of FatDisk::WriteFile does
 to them. A table of `n` entries addresses clusters 2 .. n-1.
 */
module FatChains {
  import opened Values
  import opened FatTable

  const FREE := 0
  const RESERVED := 1

  type Table = seq<nat>

  function Bad(w: Width): nat { if w.Fat12? then 0xFF7 else 0xFFF7 }
  function EocLo(w: Width): nat { if w.Fat12? then 0xFF8 else 0xFFF8 }
  function EocHi(w: Width): nat { if w.Fat12? then 0xFFF else 0xFFFF }
  function MaxClusters(w: Width): nat { if w.Fat12? then 4084 else 65524 }

  /** FatDisk::IsClusterNumberEOC: clusters 0, 1 and BAD end a walk too. */
  predicate IsEoc(w: Width, v: nat) {
    v < FIRST || v == Bad(w) || EocLo(w) <= v <= EocHi(w)
  }

  predicate InRange(t: Table, c: nat) {
    FIRST <= c < |t|
  }

  /** No cluster number of the table can be mistaken for a mark. */
  predicate Addressable(w: Width, t: Table) {
    FIRST <= |t| <= MaxClusters(w) + FIRST
  }

  /** What ends the chain of a stored file: an end mark that is not FREE. */
  predicate IsTail(w: Width, v: nat) {
    IsEoc(w, v) && v != FREE
  }

  /** Each cluster of `p` links to the next one and the last links to `end`. */
  ghost predicate Linked(t: Table, p: seq<nat>, end: nat) {
    && (forall j | 0 <= j < |p| :: InRange(t, p[j]))
    && (forall j | 0 <= j < |p| - 1 :: t[p[j]] == p[j + 1])
    && (|p| > 0 ==> t[p[|p| - 1]] == end)
  }

  /** `c` lists, in order, the clusters a walk from `c[0]` visits before its end mark. */
  ghost predicate IsChain(w: Width, t: Table, c: seq<nat>) {
    && |c| > 0 && InRange(t, c[|c| - 1])
    && Linked(t, c, t[c[|c| - 1]])
    && IsTail(w, t[c[|c| - 1]])
  }

  ghost predicate Disjoint(a: seq<nat>, b: seq<nat>) {
    forall x | x in a :: x !in b
  }

  /** A volume: every file has a chain and no two files share a cluster. */
  ghost predicate Files(w: Width, t: Table, chains: seq<seq<nat>>) {
    && Addressable(w, t)
    && (forall k | 0 <= k < |chains| :: IsChain(w, t, chains[k]))
    && (forall j, k | 0 <= j < k < |chains| :: Disjoint(chains[j], chains[k]))
  }

  // ---- facts about chains ----

  /** Only the last link of a chain is an end mark. */
  lemma LinkGoesOn(w: Width, t: Table, c: seq<nat>, i: nat)
    requires IsChain(w, t, c) && Addressable(w, t) && i < |c| - 1
    ensures InRange(t, t[c[i]]) && !IsEoc(w, t[c[i]])
  {
    assert InRange(t, c[i + 1]);
  }

  lemma {:induction false} SameSuffix(w: Width, t: Table, c: seq<nat>, i: nat, j: nat)
    requires IsChain(w, t, c) && Addressable(w, t)
    requires i < j < |c| && c[i] == c[j]
    ensures false
    decreases |c| - j
  {
    if j < |c| - 1 {
      SameSuffix(w, t, c, i + 1, j + 1);
    } else {
      LinkGoesOn(w, t, c, i);
    }
  }

  /** An end-marked chain never revisits a cluster, so it is acyclic. */
  lemma ChainDistinct(w: Width, t: Table, c: seq<nat>)
    requires IsChain(w, t, c) && Addressable(w, t)
    ensures Distinct(c)
  {
    forall i, j | 0 <= i < j < |c| ensures c[i] != c[j] {
      if c[i] == c[j] { SameSuffix(w, t, c, i, j); }
    }
  }

  /** Free clusters belong to no file. */
  lemma FreeNotInChain(w: Width, t: Table, c: seq<nat>, x: nat)
    requires IsChain(w, t, c) && Addressable(w, t) && x < |t| && t[x] == FREE
    ensures x !in c
  {
    forall i | 0 <= i < |c| ensures c[i] != x {
      if i < |c| - 1 { LinkGoesOn(w, t, c, i); }
    }
  }

  lemma ChainEntryUsed(w: Width, t: Table, c: seq<nat>, k: nat)
    requires IsChain(w, t, c) && Addressable(w, t) && k < |c|
    ensures t[c[k]] != FREE
  {
    if t[c[k]] == FREE { FreeNotInChain(w, t, c, c[k]); }
  }

  lemma ChainUnchanged(w: Width, t: Table, t': Table, c: seq<nat>)
    requires IsChain(w, t, c) && |t'| == |t|
    requires forall x | x in c :: t'[x] == t[x]
    ensures IsChain(w, t', c)
  {
  }

  lemma {:induction false} SameStart(w: Width, t: Table, c: seq<nat>, d: seq<nat>)
    requires Addressable(w, t) && IsChain(w, t, c) && IsChain(w, t, d) && c[0] == d[0]
    ensures c == d
    decreases |c|
  {
    if |c| == 1 {
      if |d| > 1 { LinkGoesOn(w, t, d, 0); }
      assert c == d;
    } else {
      LinkGoesOn(w, t, c, 0);
      SameStart(w, t, c[1..], d[1..]);
      assert c == [c[0]] + c[1..] && d == [d[0]] + d[1..];
    }
  }

  // ---- counting free clusters ----

  /** Free clusters below `n`. */
  function FreeBelow(t: Table, n: nat): (r: nat)
    requires n <= |t|
  {
    if n <= FIRST then 0
    else FreeBelow(t, n - 1) + if t[n - 1] == FREE then 1 else 0
  }

  function FreeCount(t: Table): nat {
    FreeBelow(t, |t|)
  }

  function IsFreeBit(v: nat): nat { if v == FREE then 1 else 0 }

  lemma {:induction false} FreeBelowUpdate(t: Table, c: nat, v: nat, n: nat)
    requires InRange(t, c) && n <= |t|
    ensures FreeBelow(t[c := v], n) == FreeBelow(t, n) + if c < n then IsFreeBit(v) - IsFreeBit(t[c]) else 0
  {
    if n > FIRST { FreeBelowUpdate(t, c, v, n - 1); }
  }

  /** Rewriting one entry moves the free count by what that entry gains or loses. */
  lemma FreeCountUpdate(t: Table, c: nat, v: nat)
    requires InRange(t, c)
    ensures FreeCount(t[c := v]) == FreeCount(t) + IsFreeBit(v) - IsFreeBit(t[c])
  {
    FreeBelowUpdate(t, c, v, |t|);
  }

  /** The lowest-numbered free cluster at or above `n`, or `|t|` when there is none. */
  function NextFree(t: Table, n: nat): (r: nat)
    requires FIRST <= n <= |t|
    ensures n <= r <= |t|
    ensures r < |t| ==> t[r] == FREE
    ensures forall k | n <= k < r :: t[k] != FREE
    decreases |t| - n
  {
    if n == |t| || t[n] == FREE then n else NextFree(t, n + 1)
  }

  lemma {:induction false} NoFreeBelow(t: Table, n: nat)
    requires n <= |t| && forall k | FIRST <= k < n :: t[k] != FREE
    ensures FreeBelow(t, n) == 0
  {
    if n > FIRST { NoFreeBelow(t, n - 1); }
  }

  lemma {:induction false} SomeFreeBelow(t: Table, c: nat, n: nat)
    requires FIRST <= c < n <= |t| && t[c] == FREE
    ensures FreeBelow(t, n) > 0
  {
    if c < n - 1 { SomeFreeBelow(t, c, n - 1); }
  }

  lemma SomeFree(t: Table, c: nat)
    requires InRange(t, c) && t[c] == FREE
    ensures FreeCount(t) > 0 && NextFree(t, FIRST) <= c
  {
    SomeFreeBelow(t, c, |t|);
  }

  lemma {:induction false} AllFree(t: Table, n: nat)
    requires FIRST <= n <= |t| && forall k | FIRST <= k < n :: t[k] == FREE
    ensures FreeBelow(t, n) == n - FIRST
  {
    if n > FIRST { AllFree(t, n - 1); }
  }

  lemma FreeExists(t: Table)
    requires FIRST <= |t| && FreeCount(t) > 0
    ensures NextFree(t, FIRST) < |t|
  {
    if NextFree(t, FIRST) == |t| { NoFreeBelow(t, |t|); }
  }

  // ---- the write loop ----

  /** Clusters of `p` that the file did not own before. */
  function Fresh(p: seq<nat>, chain: seq<nat>): nat {
    if |p| <= |chain| then 0 else |p| - |chain|
  }

  /** While data remains: `p` is written and linked up to `cluster`, which comes next.
      `chain` is the old chain, empty for a new file. */
  ghost predicate Writing(t0: Table, t: Table, chain: seq<nat>, p: seq<nat>, cluster: nat) {
    && |t| == |t0|
    && InRange(t, cluster) && cluster !in p
    && Distinct(p)
    && Linked(t, p, cluster)
    && (forall x | 0 <= x < |t| && x !in p :: t[x] == t0[x])
    && (forall j | |chain| <= j < |p| :: t0[p[j]] == FREE)
    && (if |p| < |chain| then p == chain[..|p|] && cluster == chain[|p|]
        else chain <= p && t0[cluster] == FREE)
    && FreeCount(t) == FreeCount(t0) - Fresh(p, chain)
  }

  /** All data written: `p` is the finished chain and `chain[|p|..k]` has been freed. */
  ghost predicate Trimming(t0: Table, t: Table, chain: seq<nat>, p: seq<nat>, eoc: nat, k: nat) {
    && |t| == |t0|
    && Distinct(p)
    && Linked(t, p, eoc)
    && (forall j | 0 <= j < |chain| :: InRange(t, chain[j]))
    && |p| <= k
    && (forall j | |p| <= j < |chain| :: chain[j] !in p && t[chain[j]] == if j < k then FREE else t0[chain[j]])
    && (forall x | 0 <= x < |t| && x !in p && x !in chain :: t[x] == t0[x])
    && (forall x | x in p && x !in chain :: t0[x] == FREE)
    && FreeCount(t) + |p| == FreeCount(t0) + if k < |chain| then k else |chain|
  }

  ghost predicate OldChain(w: Width, t0: Table, chain: seq<nat>) {
    chain == [] || (IsChain(w, t0, chain) && Distinct(chain))
  }

  /** Where the loop goes from `cluster`: along the old chain while it lasts, else to the
      lowest free cluster other than `cluster` itself, which is marked RESERVED meanwhile. */
  ghost predicate GoesOn(w: Width, t: Table, cluster: nat, next: nat)
    requires InRange(t, cluster)
  {
    if IsEoc(w, t[cluster]) then next == NextFree(t[cluster := RESERVED], FIRST) < |t| && next != cluster && t[next] == FREE
    else next == t[cluster]
  }

  /** The free-space test leaves a cluster for every iteration but the last. */
  lemma EnoughFree(t0: Table, t: Table, chain: seq<nat>, p: seq<nat>, cluster: nat)
    requires Writing(t0, t, chain, p, cluster) && |p| + 1 < FreeCount(t0)
    ensures FreeCount(t[cluster := RESERVED]) > 0
  {
    FreeCountUpdate(t, cluster, RESERVED);
  }

  /** One iteration that keeps writing, following the old chain or taking a free cluster. */
  lemma StepWriting(w: Width, t0: Table, t: Table, chain: seq<nat>, p: seq<nat>, cluster: nat, next: nat)
    requires Addressable(w, t0) && OldChain(w, t0, chain)
    requires Writing(t0, t, chain, p, cluster)
    requires GoesOn(w, t, cluster, next)
    ensures Writing(t0, t[cluster := next], chain, p + [cluster], next)
  {
    var t', p' := t[cluster := next], p + [cluster];
    FreeCountUpdate(t, cluster, next);
    assert t[cluster] == t0[cluster];
    if |p| < |chain| - 1 {
      LinkGoesOn(w, t0, chain, |p|);
      assert t[cluster] == chain[|p| + 1];
      assert p' == chain[..|p'|];
      forall x | x in p ensures x != next {
        var j :| 0 <= j < |p| && p[j] == x;
        assert chain[j] != chain[|p| + 1];
      }
    } else {
      if |p| < |chain| {
        assert p' == chain;
      }
      assert IsEoc(w, t[cluster]);
      forall x | x in p ensures x != next {
        var j :| 0 <= j < |p| && p[j] == x;
        assert j + 1 < |p| ==> InRange(t, p[j + 1]);
        assert t[p[j]] != FREE;
      }
    }
  }

  /** The iteration that writes the last cluster and puts the end mark there. */
  lemma StepLast(w: Width, t0: Table, t: Table, chain: seq<nat>, p: seq<nat>, cluster: nat, eoc: nat)
    requires Addressable(w, t0) && OldChain(w, t0, chain)
    requires Writing(t0, t, chain, p, cluster) && IsTail(w, eoc)
    ensures Trimming(t0, t[cluster := eoc], chain, p + [cluster], eoc, |p| + 1)
    ensures |p| + 1 < |chain| ==> t[cluster] == chain[|p| + 1]
  {
    FreeCountUpdate(t, cluster, eoc);
    assert t[cluster] == t0[cluster];
    if |p| < |chain| {
      ChainEntryUsed(w, t0, chain, |p|);
      assert p + [cluster] == chain[..|p| + 1];
    }
    LastLinked(t, p, cluster, eoc);
    LastRest(t0, t, chain, p, cluster, eoc);
  }

  /** The end mark completes the chain. */
  lemma LastLinked(t: Table, p: seq<nat>, cluster: nat, eoc: nat)
    requires Linked(t, p, cluster) && Distinct(p) && cluster !in p && InRange(t, cluster)
    ensures Distinct(p + [cluster]) && Linked(t[cluster := eoc], p + [cluster], eoc)
  {
  }

  /** The rest of the old chain and everything else is untouched. */
  lemma LastRest(t0: Table, t: Table, chain: seq<nat>, p: seq<nat>, cluster: nat, eoc: nat)
    requires |t| == |t0| && InRange(t, cluster) && Distinct(chain) && (forall j | 0 <= j < |chain| :: InRange(t, chain[j]))
    requires forall x | 0 <= x < |t| && x !in p :: t[x] == t0[x]
    requires forall j | 0 <= j < |p| :: InRange(t, p[j])
    requires forall j | |chain| <= j < |p| :: p[j] < |t0| && t0[p[j]] == FREE
    requires if |p| < |chain| then p + [cluster] == chain[..|p| + 1] else chain <= p && t0[cluster] == FREE
    ensures var t', p' := t[cluster := eoc], p + [cluster];
            && (forall j | |p'| <= j < |chain| :: InRange(t, chain[j]) && chain[j] !in p' && t'[chain[j]] == t0[chain[j]])
            && (forall x | 0 <= x < |t| && x !in p' && x !in chain :: t'[x] == t0[x])
            && (forall x | x in p' && x !in chain :: x < |t0| && t0[x] == FREE)
  {
    var p' := p + [cluster];
    forall j | 0 <= j < |p'| ensures p'[j] in chain || t0[p'[j]] == FREE {
      if j < |chain| { assert p'[j] == chain[j]; }
    }
  }

  /** An iteration past the new size frees one old cluster. */
  lemma StepTrim(w: Width, t0: Table, t: Table, chain: seq<nat>, p: seq<nat>, eoc: nat, k: nat)
    requires IsChain(w, t0, chain) && Distinct(chain) && Addressable(w, t0)
    requires Trimming(t0, t, chain, p, eoc, k) && k < |chain|
    ensures Trimming(t0, t[chain[k] := FREE], chain, p, eoc, k + 1)
    ensures k + 1 < |chain| ==> t[chain[k]] == chain[k + 1]
  {
    FreeCountUpdate(t, chain[k], FREE);
    assert t[chain[k]] == t0[chain[k]];
    ChainEntryUsed(w, t0, chain, k);
  }

  /** Nothing to write: the loop starts by freeing. */
  lemma StartTrimming(t0: Table, chain: seq<nat>, eoc: nat)
    requires forall j | 0 <= j < |chain| :: InRange(t0, chain[j])
    ensures Trimming(t0, t0, chain, [], eoc, 0)
  {
  }

  // ---- what the whole call does to a volume ----

  /** The chain of a written file, then those of the other files; an empty file has no chain. */
  function WithFile(p: seq<nat>, others: seq<seq<nat>>): seq<seq<nat>> {
    if p == [] then others else [p] + others
  }

  /** The loop is over: nothing of the old chain is left to free. */
  ghost predicate Finished(t0: Table, t: Table, chain: seq<nat>, p: seq<nat>, eoc: nat) {
    exists k :: |chain| <= k && Trimming(t0, t, chain, p, eoc, k)
  }

  /** Every other file keeps exactly its chain and shares no cluster with the written one. */
  lemma WriteKeepsOthers(w: Width, t0: Table, t: Table, chain: seq<nat>, p: seq<nat>, eoc: nat, others: seq<seq<nat>>)
    requires Finished(t0, t, chain, p, eoc) && Files(w, t0, others)
    requires forall k | 0 <= k < |others| :: Disjoint(chain, others[k])
    ensures Files(w, t, others)
    ensures forall k | 0 <= k < |others| :: Disjoint(p, others[k])
  {
    forall k | 0 <= k < |others|
      ensures IsChain(w, t, others[k]) && Disjoint(p, others[k])
    {
      var c := others[k];
      assert Disjoint(chain, c);
      forall x | x in c ensures x !in p && x !in chain {
        if x in p { FreeNotInChain(w, t0, c, x); }
      }
      ChainUnchanged(w, t0, t, c);
    }
  }

  /** A finished write turns a volume into a volume: the written file has a chain of its own
      and free clusters are conserved. */
  lemma WriteKeepsFiles(w: Width, t0: Table, t: Table, chain: seq<nat>, p: seq<nat>, eoc: nat, others: seq<seq<nat>>)
    requires Finished(t0, t, chain, p, eoc) && Files(w, t0, others) && IsTail(w, eoc)
    requires forall k | 0 <= k < |others| :: Disjoint(chain, others[k])
    ensures Files(w, t, WithFile(p, others))
    ensures FreeCount(t) + |p| == FreeCount(t0) + |chain|
  {
    WriteKeepsOthers(w, t0, t, chain, p, eoc, others);
    if p != [] {
      var all := [p] + others;
      assert IsChain(w, t, p);
      forall k | 0 <= k < |all| ensures IsChain(w, t, all[k]) {
        if k > 0 { assert IsChain(w, t, others[k - 1]); }
      }
      forall j, k | 0 <= j < k < |all| ensures Disjoint(all[j], all[k]) {
        if j > 0 { assert Disjoint(others[j - 1], others[k - 1]); }
      }
    }
  }
}
