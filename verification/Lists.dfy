/**
 The intrusive circular doubly linked list. Nodes are numbered; `next` and `prev` hold the
 links of all nodes, whichever list they belong to.
 */
module Lists {
  import opened Values

  /** Starting from `head`, the links lead forwards and backwards through the nodes of `r` and
      round to the start. `r` begins with the head itself. */
  ghost predicate Circle(next: seq<nat>, prev: seq<nat>, r: seq<nat>) {
    && |next| == |prev| && |r| > 0 && Distinct(r)
    && (forall i | 0 <= i < |r| :: r[i] < |next|)
    && (forall i | 0 <= i < |r| - 1 :: next[r[i]] == r[i + 1])
    && (forall i | 1 <= i < |r| :: prev[r[i]] == r[i - 1])
    && next[r[|r| - 1]] == r[0] && prev[r[0]] == r[|r| - 1]
  }

  /** The list with head node `head` holds the nodes `s` in order. */
  ghost predicate IsList(next: seq<nat>, prev: seq<nat>, head: nat, s: seq<nat>) {
    Circle(next, prev, [head] + s)
  }

  /** A list does not notice changes to the links of other nodes. */
  lemma ListFrame(next: seq<nat>, prev: seq<nat>, next': seq<nat>, prev': seq<nat>, head: nat, s: seq<nat>)
    requires IsList(next, prev, head, s) && |next'| == |prev'| == |next|
    requires forall x | x in [head] + s :: next'[x] == next[x] && prev'[x] == prev[x]
    ensures IsList(next', prev', head, s)
  {
    var r := [head] + s;
    assert forall i | 0 <= i < |r| :: r[i] in r;
  }

  /** The links after `item` has been put between neighbours `p` and `n`. */
  function InsertedNext(next: seq<nat>, p: nat, n: nat, item: nat): seq<nat>
    requires p < |next| && item < |next|
  {
    next[p := item][item := n]
  }

  function InsertedPrev(prev: seq<nat>, p: nat, n: nat, item: nat): seq<nat>
    requires n < |prev| && item < |prev|
  {
    prev[n := item][item := p]
  }

  /** Inserting before the head appends, whichever node the circle is said to start with. */
  lemma InsertAtEnd(next: seq<nat>, prev: seq<nat>, r: seq<nat>, item: nat)
    requires Circle(next, prev, r) && item < |next| && item !in r
    ensures var last := r[|r| - 1];
            Circle(InsertedNext(next, last, r[0], item), InsertedPrev(prev, last, r[0], item), r + [item])
  {
    var last := r[|r| - 1];
    var nx, pv, r' := InsertedNext(next, last, r[0], item), InsertedPrev(prev, last, r[0], item), r + [item];
    forall i | 0 <= i < |r'| - 1 ensures nx[r'[i]] == r'[i + 1] {
      if i < |r| - 1 { assert r[i] != last; }
    }
    forall i | 1 <= i < |r'| ensures pv[r'[i]] == r'[i - 1] {
      if i < |r| { assert r[i] != r[0]; }
    }
  }

  /** A circle may be read from its second node on. */
  lemma Rotate(next: seq<nat>, prev: seq<nat>, r: seq<nat>)
    requires Circle(next, prev, r)
    ensures Circle(next, prev, r[1..] + [r[0]])
  {
    var q := r[1..] + [r[0]];
    forall i | 0 <= i < |q| - 1 ensures next[q[i]] == q[i + 1] {
      assert q[i] == r[i + 1];
    }
    forall i | 1 <= i < |q| ensures prev[q[i]] == q[i - 1] {
      if i < |r| - 1 { assert q[i] == r[i + 1] && q[i - 1] == r[i]; }
    }
  }

  lemma RotateBack(next: seq<nat>, prev: seq<nat>, r: seq<nat>)
    requires Circle(next, prev, r)
    ensures Circle(next, prev, [r[|r| - 1]] + r[..|r| - 1])
  {
    var q := [r[|r| - 1]] + r[..|r| - 1];
    forall i | 0 <= i < |q| - 1 ensures next[q[i]] == q[i + 1] {
      if i > 0 { assert q[i] == r[i - 1]; }
    }
    forall i | 1 <= i < |q| ensures prev[q[i]] == q[i - 1] {
      assert q[i] == r[i - 1];
    }
  }

  /** The last node of a circle can be taken out. */
  lemma RemoveAtEnd(next: seq<nat>, prev: seq<nat>, r: seq<nat>)
    requires Circle(next, prev, r) && |r| > 1
    ensures var item := r[|r| - 1];
            var p, n := prev[item], next[item];
            && p < |next| && n < |next|
            && Circle(next[p := n][item := item], prev[n := p][item := item], r[..|r| - 1])
  {
    var item := r[|r| - 1];
    var p, n, q := prev[item], next[item], r[..|r| - 1];
    assert p == r[|r| - 2] && n == r[0];
    var nx, pv := next[p := n][item := item], prev[n := p][item := item];
    forall i | 0 <= i < |q| - 1 ensures nx[q[i]] == q[i + 1] {
      assert r[i] != p && r[i] != item;
    }
    forall i | 1 <= i < |q| ensures pv[q[i]] == q[i - 1] {
      assert r[i] != n && r[i] != item;
    }
  }

  // ---- operations ----

  method InsertBetween(next: array<nat>, prev: array<nat>, p: nat, n: nat, item: nat)
    requires next != prev && next.Length == prev.Length && p < next.Length && n < next.Length && item < next.Length
    modifies next, prev
    ensures next[..] == InsertedNext(old(next[..]), p, n, item) && prev[..] == InsertedPrev(old(prev[..]), p, n, item)
  {
    prev[n] := item;
    next[p] := item;
    prev[item] := p;
    next[item] := n;
  }

  method ListInit(next: array<nat>, prev: array<nat>, head: nat)
    requires next != prev && next.Length == prev.Length && head < next.Length
    modifies next, prev
    ensures IsList(next[..], prev[..], head, [])
    ensures next[..] == old(next[..])[head := head] && prev[..] == old(prev[..])[head := head]
  {
    prev[head], next[head] := head, head;
  }

  method ListEmpty(next: array<nat>, prev: array<nat>, head: nat, ghost s: seq<nat>) returns (empty: bool)
    requires IsList(next[..], prev[..], head, s)
    ensures empty <==> s == []
  {
    assert ([head] + s)[0] == head;
    empty := next[head] == head;
    if s != [] { assert ([head] + s)[1] == s[0]; }
  }

  /** list_add links the item before the head, that is at the end of the list. */
  method ListAdd(next: array<nat>, prev: array<nat>, head: nat, item: nat, ghost s: seq<nat>)
    requires next != prev && IsList(next[..], prev[..], head, s) && item < next.Length && item !in [head] + s
    modifies next, prev
    ensures IsList(next[..], prev[..], head, s + [item])
    ensures forall x | 0 <= x < next.Length && x !in [head] + s + [item] :: next[x] == old(next[x]) && prev[x] == old(prev[x])
  {
    ghost var r := [head] + s;
    assert r[0] == head && r[|r| - 1] in r;
    InsertAtEnd(next[..], prev[..], r, item);
    InsertBetween(next, prev, prev[head], head, item);
    assert r + [item] == [head] + (s + [item]);
  }

  /** list_add_tail links the item after the head, that is at the front of the list. */
  method ListAddTail(next: array<nat>, prev: array<nat>, head: nat, item: nat, ghost s: seq<nat>)
    requires next != prev && IsList(next[..], prev[..], head, s) && item < next.Length && item !in [head] + s
    modifies next, prev
    ensures IsList(next[..], prev[..], head, [item] + s)
    ensures forall x | 0 <= x < next.Length && x !in [head] + s + [item] :: next[x] == old(next[x]) && prev[x] == old(prev[x])
  {
    ghost var r := [head] + s;
    Rotate(next[..], prev[..], r);
    ghost var q := r[1..] + [r[0]];
    assert q == s + [head] && q[|q| - 1] == head;
    assert q[0] == next[head] by { if s != [] { assert r[1] == s[0]; } }
    InsertAtEnd(next[..], prev[..], q, item);
    InsertBetween(next, prev, head, next[head], item);
    RotateBack(next[..], prev[..], q + [item]);
    RotateBack(next[..], prev[..], [item] + q);
    assert (q + [item])[..|q|] == q && ([item] + q)[..|q|] == [item] + s;
    assert [head] + ([item] + s) == [([item] + q)[|q|]] + ([item] + q)[..|q|];
  }

  /** list_remove of the first item. */
  method ListRemoveFirst(next: array<nat>, prev: array<nat>, head: nat, item: nat, ghost s: seq<nat>)
    requires next != prev && IsList(next[..], prev[..], head, s) && s != [] && item == s[0]
    modifies next, prev
    ensures IsList(next[..], prev[..], head, s[1..])
    ensures item < next.Length == prev.Length && next[item] == item && prev[item] == item
    ensures forall x | 0 <= x < next.Length && x !in [head] + s :: next[x] == old(next[x]) && prev[x] == old(prev[x])
  {
    ghost var r := [head] + s;
    assert r[1] == item;
    Rotate(next[..], prev[..], r);
    Rotate(next[..], prev[..], s + [head]);
    ghost var q := s[1..] + [head] + [item];
    assert r[1..] + [r[0]] == s + [head] && (s + [head])[1..] + [s[0]] == q;
    RemoveAtEnd(next[..], prev[..], q);
    ListRemove(next, prev, item);
    RotateBack(next[..], prev[..], q[..|q| - 1]);
    assert q[..|q| - 1] == s[1..] + [head];
    assert [head] + s[1..] == [(s[1..] + [head])[|s| - 1]] + (s[1..] + [head])[..|s| - 1];
  }

  method ListRemove(next: array<nat>, prev: array<nat>, item: nat)
    requires next != prev && next.Length == prev.Length && item < next.Length
    requires prev[item] < next.Length && next[item] < next.Length
    modifies next, prev
    ensures next[..] == old(next[..])[old(prev[item]) := old(next[item])][item := item]
    ensures prev[..] == old(prev[..])[old(next[item]) := old(prev[item])][item := item]
  {
    var p, n := prev[item], next[item];
    prev[n] := p;
    next[p] := n;
    prev[item] := item;
    next[item] := item;
  }
}
