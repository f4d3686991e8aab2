/**
 The in-memory file allocation table: a byte buffer that packs 12-bit or 16-bit
 entries. In the 12-bit form an even entry and the odd entry after it share a byte.
 The lemmas show that the packed buffer behaves as a plain sequence of numbers.
 */
module FatTable {
  import opened Values

  datatype Width = Fat12 | Fat16

  /** Number of the first data cluster; entries 0 and 1 of the table are not clusters. */
  const FIRST := 2

  /** Number of distinct values an entry of this width can hold. */
  function Modulus(w: Width): nat {
    if w.Fat12? then 4096 else 65536
  }

  /** The low 12 or 16 bits of a value. */
  function Truncate(w: Width, value: nat): (r: nat)
    ensures r < Modulus(w)
    ensures value < Modulus(w) ==> r == value
  {
    if w.Fat12? then value % 4096 else value % 65536
  }

  /** Byte position of the 16-bit word that contains entry `index`. */
  function Offset(w: Width, index: nat): nat {
    if w.Fat12? then index + index / 2 else 2 * index
  }

  /** The whole word of entry `index` lies inside a buffer of `size` bytes. */
  predicate Holds(w: Width, size: nat, index: nat) {
    Offset(w, index) + 1 < size
  }

  /** The buffer has room for entries 0 .. n-1; the last one decides. */
  predicate HoldsAll(w: Width, size: nat, n: nat) {
    n > 0 && Holds(w, size, n - 1)
  }

  lemma HoldsBelow(w: Width, size: nat, n: nat, k: nat)
    requires HoldsAll(w, size, n) && k < n
    ensures Holds(w, size, k)
  {
  }

  /** Little-endian 16-bit load. */
  function Load16(b: seq<byte>, i: nat): (r: nat)
    requires i + 1 < |b|
    ensures r < 65536
  {
    b[i] as int + 256 * (b[i + 1] as int)
  }

  /** Little-endian 16-bit store. */
  function Store16(b: seq<byte>, i: nat, v: nat): (r: seq<byte>)
    requires i + 1 < |b| && v < 65536
    ensures |r| == |b| && Load16(r, i) == v
    ensures forall k | 0 <= k < |b| && k != i && k != i + 1 :: r[k] == b[k]
  {
    b[i := v % 256][i + 1 := v / 256]
  }

  /** GetCluster12 / GetCluster16. `x >> 4` is `x / 16` and `x & 0x0FFF` is `x % 4096`. */
  function Get(w: Width, b: seq<byte>, index: nat): (r: nat)
    requires Holds(w, |b|, index)
    ensures r < Modulus(w)
  {
    var pair := Load16(b, Offset(w, index));
    if w.Fat16? then pair
    else if index % 2 == 1 then pair / 16
    else pair % 4096
  }

  /** The word that replaces `pair` when `value` is stored at `index`. */
  function Merge(w: Width, pair: nat, index: nat, value: nat): (r: nat)
    requires pair < 65536
    ensures r < 65536
  {
    if w.Fat16? then value % 65536
    else if index % 2 == 1 then (value * 16) % 65536 + pair % 16
    else pair - pair % 4096 + value % 4096
  }

  /** Which bits hold an entry: a 16-bit entry is two bytes, low byte first. */
  lemma EntryBytes16(b: seq<byte>, i: nat)
    requires 2 * i + 1 < |b|
    ensures Holds(Fat16, |b|, i) && Get(Fat16, b, i) == b[2 * i] as int + 256 * (b[2 * i + 1] as int)
  {
  }

  /** Two 12-bit entries share three bytes: the even one has the first byte and the low half of the
      second, the odd one the high half of the second and the third byte. */
  lemma EntryBytes12(b: seq<byte>, k: nat)
    requires 3 * k + 2 < |b|
    ensures Holds(Fat12, |b|, 2 * k) && Get(Fat12, b, 2 * k) == b[3 * k] as int + 256 * (b[3 * k + 1] as int % 16)
    ensures Holds(Fat12, |b|, 2 * k + 1) && Get(Fat12, b, 2 * k + 1) == b[3 * k + 1] as int / 16 + 16 * (b[3 * k + 2] as int)
  {
    LowPart(b[3 * k], b[3 * k + 1]);
    HighPart(b[3 * k + 1], b[3 * k + 2]);
  }

  /** The buffer after SetCluster12 / SetCluster16. */
  function Set(w: Width, b: seq<byte>, index: nat, value: nat): (r: seq<byte>)
    requires Holds(w, |b|, index)
    ensures |r| == |b|
  {
    var i := Offset(w, index);
    Store16(b, i, Merge(w, Load16(b, i), index, value))
  }

  /** The abstract table: the first `n` entries as numbers. */
  function Entries(w: Width, b: seq<byte>, n: nat): (t: seq<nat>)
    requires HoldsAll(w, |b|, n)
    ensures |t| == n
    ensures forall k | 0 <= k < n :: t[k] == Get(w, b, k) && t[k] < Modulus(w)
  {
    seq(n, k requires 0 <= k < n => HoldsBelow(w, |b|, n, k); Get(w, b, k))
  }

  lemma TimesSixteen(value: nat)
    ensures (value * 16) % 65536 == (value % 4096) * 16
  {
    var q, r := value / 4096, value % 4096;
    assert value * 16 == q * 65536 + r * 16;
  }

  lemma SetHits(w: Width, b: seq<byte>, index: nat, value: nat)
    requires Holds(w, |b|, index)
    ensures Get(w, Set(w, b, index, value), index) == Truncate(w, value)
    ensures Truncate(w, value) == if w.Fat12? then value % 4096 else value % 65536
  {
    var pair := Load16(b, Offset(w, index));
    if w.Fat12? && index % 2 == 1 {
      TimesSixteen(value);
      assert ((value % 4096) * 16 + pair % 16) / 16 == value % 4096;
    } else if w.Fat12? {
      assert (pair - pair % 4096 + value % 4096) % 4096 == value % 4096;
    }
  }

  lemma SetMisses(w: Width, b: seq<byte>, index: nat, value: nat, other: nat)
    requires Holds(w, |b|, index) && Holds(w, |b|, other) && other != index
    ensures Get(w, Set(w, b, index, value), other) == Get(w, b, other)
  {
    var i, j := Offset(w, index), Offset(w, other);
    var b' := Set(w, b, index, value);
    TimesSixteen(value);
    if w.Fat12? && j == i + 1 {
      // even entry written, its odd neighbour shares the high byte of the word
      assert index % 2 == 0 && other == index + 1;
      NeighbourAbove(b, i, value);
    } else if w.Fat12? && i == j + 1 {
      assert other % 2 == 0 && index == other + 1;
      NeighbourBelow(b, j, value);
    } else {
      assert b'[j] == b[j] && b'[j + 1] == b[j + 1];
    }
  }

  lemma HighPart(lo: byte, hi: byte)
    ensures (lo as int + 256 * (hi as int)) / 16 == lo as int / 16 + 16 * (hi as int)
    ensures (lo as int + 256 * (hi as int)) % 16 == lo as int % 16
  {
  }

  lemma LowPart(lo: byte, hi: byte)
    ensures (lo as int + 256 * (hi as int)) % 4096 == lo as int + 256 * (hi as int % 16)
  {
  }

  /** Writing an even entry keeps the high half of the byte it shares. */
  lemma NeighbourAbove(b: seq<byte>, i: nat, value: nat)
    requires i + 2 < |b|
    ensures var p := Load16(b, i);
            Load16(Store16(b, i, p - p % 4096 + value % 4096), i + 1) / 16 == Load16(b, i + 1) / 16
  {
    var p := Load16(b, i);
    var v := p - p % 4096 + value % 4096;
    assert v / 4096 == p / 4096;
    HighPart(b[i + 1], b[i + 2]);
    HighPart(v / 256, b[i + 2]);
  }

  /** Writing an odd entry keeps the low half of the byte it shares. */
  lemma NeighbourBelow(b: seq<byte>, j: nat, value: nat)
    requires j + 2 < |b|
    ensures var p := Load16(b, j + 1);
            Load16(Store16(b, j + 1, (value * 16) % 65536 + p % 16), j) % 4096 == Load16(b, j) % 4096
  {
    TimesSixteen(value);
    var p := Load16(b, j + 1);
    var v := (value % 4096) * 16 + p % 16;
    HighPart(b[j + 1], b[j + 2]);
    HighPart(v % 256, v / 256);
    LowPart(b[j], b[j + 1]);
    LowPart(b[j], v % 256);
  }

  /** A store changes its own entry, modulo the width, and no other. */
  lemma SetRefinesUpdate(w: Width, b: seq<byte>, index: nat, value: nat, n: nat)
    requires HoldsAll(w, |b|, n) && index < n
    ensures Entries(w, Set(w, b, index, value), n) == Entries(w, b, n)[index := Truncate(w, value)]
  {
    HoldsBelow(w, |b|, n, index);
    SetHits(w, b, index, value);
    forall k: nat | k < n && k != index
      ensures Entries(w, Set(w, b, index, value), n)[k] == Entries(w, b, n)[k]
    {
      HoldsBelow(w, |b|, n, k);
      SetMisses(w, b, index, value, k);
    }
  }

  /** SetCluster12 / SetCluster16 in place: returns the old entry. */
  method SetCluster(w: Width, fat: array<byte>, index: nat, value: nat) returns (oldValue: nat)
    requires Holds(w, fat.Length, index)
    modifies fat
    ensures oldValue == old(Get(w, fat[..], index))
    ensures fat[..] == Set(w, old(fat[..]), index, value)
  {
    oldValue := Get(w, fat[..], index);
    var i := Offset(w, index);
    var pair := Load16(fat[..], i);
    var word := Merge(w, pair, index, value);
    fat[i], fat[i + 1] := word % 256, word / 256;
  }

  /** InitFat12 / InitFat16: an empty table. Entry 0 holds the media type, entry 1 the end mark. */
  method InitFat(w: Width, fat: array<byte>, mediaType: byte, eoc: nat, ghost n: nat)
    requires n >= FIRST && HoldsAll(w, fat.Length, n) && eoc < Modulus(w)
    modifies fat
    ensures var t := Entries(w, fat[..], n);
            && t[0] == Modulus(w) - 256 + mediaType && t[1] == eoc
            && forall k | FIRST <= k < n :: t[k] == 0
  {
    for i := 0 to fat.Length
      invariant forall k | 0 <= k < i :: fat[k] == 0
    {
      fat[i] := 0;
    }
    ghost var b := fat[..];
    ZeroEntries(w, b, n);
    HoldsBelow(w, fat.Length, n, 0);
    HoldsBelow(w, fat.Length, n, 1);
    var media: nat := (if w.Fat12? then 0x0F00 else 0xFF00) + mediaType as int;
    var _ := SetCluster(w, fat, 0, media);
    var _ := SetCluster(w, fat, 1, eoc);
    SetRefinesUpdate(w, b, 0, media, n);
    SetRefinesUpdate(w, Set(w, b, 0, media), 1, eoc, n);
  }

  lemma ZeroEntries(w: Width, b: seq<byte>, n: nat)
    requires HoldsAll(w, |b|, n) && forall k | 0 <= k < |b| :: b[k] == 0
    ensures forall k | 0 <= k < n :: Entries(w, b, n)[k] == 0
  {
    forall k: nat | k < n ensures Entries(w, b, n)[k] == 0 {
      HoldsBelow(w, |b|, n, k);
    }
  }
}
