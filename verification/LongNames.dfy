/**
 Long file names: a name is cut into links of 13 characters that are stored in reverse order in
 front of the short-name entry, each carrying a checksum of the short name.
 */
module LongNames {
  import opened Values

  type u16 = x: int | 0 <= x < 65536

  const CHUNK := 13
  const MAX_CHAIN := 20
  const LONGNAME_LENGTH := 255
  const MAX_LONGNAME := 256
  const ATTR_LFN: byte := 0x0F

  /** A byte as its bits, for the exclusive or. */
  datatype Octet = Octet(b0: bool, b1: bool, b2: bool, b3: bool, b4: bool, b5: bool, b6: bool, b7: bool)

  const ZERO := Octet(false, false, false, false, false, false, false, false)

  /** Bit `i` of a number. */
  predicate Bit(n: nat, i: nat) { if i == 0 then n % 2 == 1 else Bit(n / 2, i - 1) }

  function ToOctet(n: nat): Octet {
    Octet(Bit(n, 0), Bit(n, 1), Bit(n, 2), Bit(n, 3), Bit(n, 4), Bit(n, 5), Bit(n, 6), Bit(n, 7))
  }

  function Xor(a: Octet, b: Octet): Octet {
    Octet(a.b0 != b.b0, a.b1 != b.b1, a.b2 != b.b2, a.b3 != b.b3,
          a.b4 != b.b4, a.b5 != b.b5, a.b6 != b.b6, a.b7 != b.b7)
  }

  /** The 32 bytes of a directory slot, divided as a long-name link divides them. A short-name
      entry is the same bytes: its 11-byte label is byte 0 followed by the bytes of `name1`. */
  datatype Slot = Slot(
    sequence: nat, firstInChain: bool, reserved1: bool,
    name1: seq<u16>, attributes: byte, reserved2: byte, checksum: Octet,
    name2: seq<u16>, firstCluster: u16, name3: seq<u16>)
  {
    predicate Valid() { sequence < 64 && |name1| == 5 && |name2| == 6 && |name3| == 2 }

    /** Byte 0 as the bit fields lay it out. */
    function Byte0(): nat { sequence + (if firstInChain then 64 else 0) + (if reserved1 then 128 else 0) }

    predicate IsDeleted() { Byte0() == 0xE5 }
    predicate IsLongFileName() { attributes as int % 16 == 15 && firstCluster == 0 }

    /** The characters of a link. */
    function Chars(): seq<u16> { name1 + name2 + name3 }

    /** Byte `i` of the label of a short-name entry. */
    function Label(i: nat): nat
      requires Valid() && i < 11
    {
      if i == 0 then Byte0()
      else if i % 2 == 1 then name1[i / 2] as int % 256
      else name1[i / 2 - 1] as int / 256
    }
  }

  // ---- checksums ----

  /** One round: rotate right by one bit, then add. */
  function RotateAdd(sum: nat, c: nat): (r: nat)
    ensures r < 256
  {
    ((if sum % 2 == 1 then 0x80 else 0) + sum / 2 + c) % 256
  }

  /** GetShortNameChecksum after `n` label bytes. */
  function SumLabel(e: Slot, n: nat): (r: nat)
    requires e.Valid() && n <= 11
    ensures r < 256
  {
    if n == 0 then 0 else RotateAdd(SumLabel(e, n - 1), e.Label(n - 1))
  }

  function ShortNameChecksum(e: Slot): Octet
    requires e.Valid()
  {
    ToOctet(SumLabel(e, 11))
  }

  method GetShortNameChecksum(e: Slot) returns (r: Octet)
    requires e.Valid()
    ensures r == ShortNameChecksum(e)
  {
    var sum := 0;
    for i := 0 to 11
      invariant sum == SumLabel(e, i)
    {
      sum := ((if sum % 2 == 1 then 0x80 else 0) + sum / 2 + e.Label(i)) % 256;
    }
    return ToOctet(sum);
  }

  lemma RotateInjective(s: nat, s': nat)
    requires s < 256 && s' < 256 && s != s'
    ensures (if s % 2 == 1 then 0x80 else 0) + s / 2 != (if s' % 2 == 1 then 0x80 else 0) + s' / 2
    ensures (if s % 2 == 1 then 0x80 else 0) + s / 2 < 256
  {
  }

  lemma AddInjective(x: nat, y: nat, c: nat)
    requires x < 256 && y < 256 && x != y && c < 256
    ensures (x + c) % 256 != (y + c) % 256
  {
  }

  /** Rotating a byte right by one and adding a byte, modulo 256, tells both bytes apart. */
  lemma RotateAddInjective(s: nat, s': nat, c: nat, c': nat)
    requires s < 256 && s' < 256 && c < 256 && c' < 256 && ((s == s' && c != c') || (s != s' && c == c'))
    ensures RotateAdd(s, c) != RotateAdd(s', c')
  {
    var r := (if s % 2 == 1 then 0x80 else 0) + s / 2;
    var r' := (if s' % 2 == 1 then 0x80 else 0) + s' / 2;
    if s == s' {
      AddInjective(c, c', r);
    } else {
      RotateInjective(s, s');
      RotateInjective(s', s);
      AddInjective(r, r', c);
    }
  }

  lemma LabelIsByte(e: Slot, i: nat)
    requires e.Valid() && i < 11
    ensures e.Label(i) < 256
  {
  }

  /** Labels that agree up to byte `j`, differ there, and agree behind it have sums that agree up to
      `j` and differ from then on. */
  lemma {:induction false} SumsPart(e: Slot, e': Slot, j: nat, n: nat)
    requires e.Valid() && e'.Valid() && j < 11 && n <= 11 && e.Label(j) != e'.Label(j)
    requires forall i: nat | i < 11 && i != j :: e.Label(i) == e'.Label(i)
    ensures SumLabel(e, n) == SumLabel(e', n) <==> n <= j
  {
    if n > 0 {
      SumsPart(e, e', j, n - 1);
      LabelIsByte(e, n - 1);
      LabelIsByte(e', n - 1);
      if n > j { RotateAddInjective(SumLabel(e, n - 1), SumLabel(e', n - 1), e.Label(n - 1), e'.Label(n - 1)); }
    }
  }

  function Pow2(k: nat): nat { if k == 0 then 1 else 2 * Pow2(k - 1) }

  /** Numbers of `k` bits that have the same bits are the same. */
  lemma {:induction false} BitsTell(m: nat, n: nat, k: nat)
    requires m < Pow2(k) && n < Pow2(k) && forall i: nat | i < k :: Bit(m, i) == Bit(n, i)
    ensures m == n
  {
    if k > 0 {
      forall i: nat | i < k - 1 ensures Bit(m / 2, i) == Bit(n / 2, i) {
        assert Bit(m, i + 1) == Bit(n, i + 1);
      }
      assert Bit(m, 0) == Bit(n, 0);
      BitsTell(m / 2, n / 2, k - 1);
    }
  }

  lemma OctetInjective(m: nat, n: nat)
    requires m < 256 && n < 256
    ensures ToOctet(m) == ToOctet(n) <==> m == n
  {
    assert Pow2(4) == 16 && Pow2(8) == 256;
    if ToOctet(m) == ToOctet(n) {
      forall i: nat | i < 8 ensures Bit(m, i) == Bit(n, i) {
        BitAt(m, i);
        BitAt(n, i);
      }
      BitsTell(m, n, 8);
    }
  }

  function OctetBit(o: Octet, i: nat): bool
    requires i < 8
  {
    if i < 4 then (if i == 0 then o.b0 else if i == 1 then o.b1 else if i == 2 then o.b2 else o.b3)
    else (if i == 4 then o.b4 else if i == 5 then o.b5 else if i == 6 then o.b6 else o.b7)
  }

  lemma BitAt(n: nat, i: nat)
    requires i < 8
    ensures OctetBit(ToOctet(n), i) == Bit(n, i)
  {
  }

  /** The value of a byte from its bits. */
  function OctetValue(o: Octet): nat {
    (if o.b0 then 1 else 0) + (if o.b1 then 2 else 0) + (if o.b2 then 4 else 0) + (if o.b3 then 8 else 0)
    + (if o.b4 then 16 else 0) + (if o.b5 then 32 else 0) + (if o.b6 then 64 else 0) + (if o.b7 then 128 else 0)
  }

  /** Short names that differ in exactly one byte have different checksums. */
  lemma ChecksumTellsApart(e: Slot, e': Slot, j: nat)
    requires e.Valid() && e'.Valid() && j < 11 && e.Label(j) != e'.Label(j)
    requires forall i: nat | i < 11 && i != j :: e.Label(i) == e'.Label(i)
    ensures ShortNameChecksum(e) != ShortNameChecksum(e')
  {
    SumsPart(e, e', j, 11);
    OctetInjective(SumLabel(e, 11), SumLabel(e', 11));
  }

  /** The checksum of "FOO     TXT" is 0x65. */
  lemma SampleChecksum(e: Slot)
    requires e.Valid() && e.sequence == 0x06 && e.firstInChain && !e.reserved1
    requires e.name1 == [0x4F4F, 0x2020, 0x2020, 0x5420, 0x5458]
    ensures forall i: nat | i < 11 :: e.Label(i) == [0x46, 0x4F, 0x4F, 0x20, 0x20, 0x20, 0x20, 0x20, 0x54, 0x58, 0x54][i]
    ensures ShortNameChecksum(e) == ToOctet(0x65) && OctetValue(ShortNameChecksum(e)) == 0x65
  {
    assert e.Label(0) == 0x46 && e.Label(1) == 0x4F && e.Label(2) == 0x4F && e.Label(3) == 0x20 && e.Label(4) == 0x20;
    assert e.Label(5) == 0x20 && e.Label(6) == 0x20 && e.Label(7) == 0x20 && e.Label(8) == 0x54 && e.Label(9) == 0x58 && e.Label(10) == 0x54;
    assert SumLabel(e, 1) == 0x46;
    assert SumLabel(e, 2) == 0x72;
    assert SumLabel(e, 3) == 0x88;
    assert SumLabel(e, 4) == 0x64;
    assert SumLabel(e, 5) == 0x52;
    assert SumLabel(e, 6) == 0x49;
    assert SumLabel(e, 7) == 0xC4;
    assert SumLabel(e, 8) == 0x82;
    assert SumLabel(e, 9) == 0x95;
    assert SumLabel(e, 10) == 0x22;
    assert ToOctet(0x65) == Octet(true, false, true, false, false, true, true, false);
  }

  function XorAll(c: seq<Octet>): Octet {
    if c == [] then ZERO else Xor(XorAll(c[..|c| - 1]), c[|c| - 1])
  }

  /** How the checksum bytes `c` deviate from `s`. */
  function Deviations(c: seq<Octet>, s: Octet): seq<Octet> {
    seq(|c|, i requires 0 <= i < |c| => Xor(c[i], s))
  }

  /** The test GetLongName makes on the checksum bytes of a chain, for a given key. */
  predicate Passes(c: seq<Octet>, s: Octet, key: Octet)
    requires |c| > 0
  {
    var last, rolled := c[|c| - 1], Xor(key, XorAll(c));
    (if |c| % 2 == 1 then Xor(rolled, last) else rolled) == key && last == s
  }

  lemma XorAssoc(a: Octet, b: Octet, s: Octet)
    ensures Xor(Xor(a, b), s) == Xor(a, Xor(b, s))
  {
  }

  lemma XorCancel(a: Octet, b: Octet, s: Octet)
    ensures Xor(Xor(a, s), Xor(b, s)) == Xor(a, b)
  {
  }

  lemma XorZero(a: Octet, s: Octet)
    ensures Xor(a, s) == ZERO <==> a == s
    ensures Xor(a, s) == a <==> s == ZERO
    ensures Xor(a, ZERO) == a == Xor(ZERO, a)
  {
  }

  lemma DeviationsLast(c: seq<Octet>, s: Octet)
    requires c != []
    ensures XorAll(Deviations(c, s)) == Xor(XorAll(Deviations(c[..|c| - 1], s)), Xor(c[|c| - 1], s))
  {
    assert Deviations(c, s)[..|c| - 1] == Deviations(c[..|c| - 1], s);
  }

  /** The rolling XOR, corrected for odd chains, is the XOR of all deviations from `s`. */
  lemma {:induction false} XorOfDeviations(c: seq<Octet>, s: Octet)
    ensures XorAll(Deviations(c, s)) == if |c| % 2 == 1 then Xor(XorAll(c), s) else XorAll(c)
  {
    if c != [] {
      XorOfDeviations(c[..|c| - 1], s);
      DeviationsLast(c, s);
      XorAssoc(XorAll(c[..|c| - 1]), c[|c| - 1], s);
      XorCancel(XorAll(c[..|c| - 1]), c[|c| - 1], s);
    }
  }

  /** The test passes, whatever the key, exactly when the last checksum is right and the
      deviations of all the others cancel out. */
  lemma PassesExactly(c: seq<Octet>, s: Octet, key: Octet)
    requires |c| > 0
    ensures Passes(c, s, key) <==> c[|c| - 1] == s && XorAll(Deviations(c, s)) == ZERO
  {
    var last := c[|c| - 1];
    XorOfDeviations(c, s);
    XorAssoc(key, XorAll(c), last);
    XorZero(key, Xor(XorAll(c), last));
    XorZero(key, XorAll(c));
  }

  lemma {:induction false} XorNone(d: seq<Octet>)
    requires forall i | 0 <= i < |d| :: d[i] == ZERO
    ensures XorAll(d) == ZERO
  {
    if d != [] { XorNone(d[..|d| - 1]); }
  }

  lemma {:induction false} XorOne(d: seq<Octet>, j: nat)
    requires j < |d| && forall i | 0 <= i < |d| && i != j :: d[i] == ZERO
    ensures XorAll(d) == d[j]
  {
    var n := |d| - 1;
    XorZero(d[j], ZERO);
    if j == n {
      XorNone(d[..n]);
    } else {
      XorOne(d[..n], j);
    }
  }

  /** A chain whose checksums all equal the short name's passes. */
  lemma IntactPasses(c: seq<Octet>, s: Octet, key: Octet)
    requires |c| > 0 && forall i | 0 <= i < |c| :: c[i] == s
    ensures Passes(c, s, key)
  {
    PassesExactly(c, s, key);
    XorNone(Deviations(c, s));
  }

  /** Changing the checksum of any one link makes the test fail: any key, odd and even chains. */
  lemma OneChangeFails(c: seq<Octet>, s: Octet, key: Octet, j: nat, x: Octet)
    requires j < |c| && x != s && forall i | 0 <= i < |c| :: c[i] == s
    ensures !Passes(c[j := x], s, key)
  {
    var c' := c[j := x];
    PassesExactly(c', s, key);
    XorOne(Deviations(c', s), j);
    XorZero(x, s);
  }

  lemma XorTriple(a: Octet, b: Octet, c: Octet)
    ensures XorAll([a, b, c]) == Xor(Xor(Xor(ZERO, a), b), c)
  {
    assert [a, b, c][..2] == [a, b] && [a, b][..1] == [a] && [a][..0] == [];
    assert XorAll([a]) == Xor(XorAll([]), a);
    assert XorAll([a, b]) == Xor(XorAll([a]), b);
  }

  /** Two changes can cancel: a chain of three links with two equal wrong checksums passes. */
  lemma TwoChangesCanPass(s: Octet, x: Octet, key: Octet)
    ensures Passes([x, x, s], s, key)
  {
    PassesExactly([x, x, s], s, key);
    XorOfDeviations([x, x, s], s);
    XorTriple(x, x, s);
    XorZero(x, x);
    XorZero(s, s);
  }

  // ---- cutting a name into links ----

  /** Position of the first NUL, or the length. */
  function NulAt(b: seq<u16>): (k: nat)
    ensures k <= |b| && (k < |b| ==> b[k] == 0) && forall i | 0 <= i < k :: b[i] != 0
  {
    if b == [] || b[0] == 0 then 0 else 1 + NulAt(b[1..])
  }

  lemma NulAtUnique(b: seq<u16>, k: nat)
    requires k <= |b| && (k < |b| ==> b[k] == 0) && forall i | 0 <= i < k :: b[i] != 0
    ensures NulAt(b) == k
  {
  }

  function LinkCount(n: nat): nat { (n + CHUNK - 1) / CHUNK }

  /** Characters of link `seqNo` of a name of length `n`. */
  function ChunkEnd(n: nat, seqNo: nat): nat
    requires seqNo >= 1
  {
    if seqNo * CHUNK < n then seqNo * CHUNK else n
  }

  function Low16(c: nat): u16 { c % 65536 }

  /** Link `seqNo` holds its part of `name`, ended by a NUL when it is not full. */
  ghost predicate HoldsChunk(link: Slot, name: seq<nat>, seqNo: nat)
    requires 1 <= seqNo <= LinkCount(|name|)
  {
    var start, end := (seqNo - 1) * CHUNK, ChunkEnd(|name|, seqNo);
    && link.Valid()
    && (forall i | start <= i < end :: link.Chars()[i - start] == Low16(name[i]))
    && (end - start < CHUNK ==> link.Chars()[end - start] == 0)
  }

  ghost predicate IsLink(link: Slot, name: seq<nat>, seqNo: nat)
    requires 1 <= seqNo <= LinkCount(|name|)
  {
    && HoldsChunk(link, name, seqNo)
    && link.sequence == seqNo && link.firstInChain == (seqNo == LinkCount(|name|)) && !link.reserved1
    && link.attributes == ATTR_LFN && link.firstCluster == 0
  }

  /** Where a link keeps its characters: five in its first field, six in the second, two in the third;
      byte 0 counts the links from the start of the name and marks the last of them with 0x40. */
  lemma LinkFields(link: Slot, name: seq<nat>, seqNo: nat)
    requires 1 <= seqNo <= LinkCount(|name|) && IsLink(link, name, seqNo)
    ensures forall i | 0 <= i < 5 && 13 * (seqNo - 1) + i < |name| :: link.name1[i] == name[13 * (seqNo - 1) + i] % 65536
    ensures forall i | 0 <= i < 6 && 13 * (seqNo - 1) + 5 + i < |name| :: link.name2[i] == name[13 * (seqNo - 1) + 5 + i] % 65536
    ensures forall i | 0 <= i < 2 && 13 * (seqNo - 1) + 11 + i < |name| :: link.name3[i] == name[13 * (seqNo - 1) + 11 + i] % 65536
    ensures link.Byte0() == if 13 * seqNo >= |name| then 0x40 + seqNo else seqNo
    ensures link.attributes == 0x0F && link.firstCluster == 0
  {
    var at, c := 13 * (seqNo - 1), link.Chars();
    forall i | 0 <= i < 13 && at + i < |name| ensures c[i] == name[at + i] % 65536 {
      assert c[at + i - at] == Low16(name[at + i]);
    }
    assert forall i | 0 <= i < 5 :: link.name1[i] == c[i];
    assert forall i | 0 <= i < 6 :: link.name2[i] == c[5 + i];
    assert forall i | 0 <= i < 2 :: link.name3[i] == c[11 + i];
  }

  /** Behind the NUL that ends the name, what is left of the first field of a link holds 0xFFFF and
      what is left of the other two holds 0. */
  ghost predicate Padded(link: Slot, name: seq<nat>, seqNo: nat) {
    && link.Valid() && link.reserved2 == 0xFF
    && forall i | 0 <= i < 13 && 13 * (seqNo - 1) + i > |name| :: link.Chars()[i] == if i < 5 then 0xFFFF else 0
  }

  /** Slots `pos` .. are the links of `name`, highest first; the checksums may be anything. */
  ghost predicate Encodes(table: seq<Slot>, pos: nat, name: seq<nat>) {
    var n := LinkCount(|name|);
    && pos + n < |table|
    && table[pos + n].Valid()
    && forall i | pos <= i < pos + n :: IsLink(table[i], name, pos + n - i)
  }

  function Checksums(table: seq<Slot>, pos: nat, n: nat): seq<Octet>
    requires pos + n <= |table|
  {
    seq(n, i requires 0 <= i < n => table[pos + i].checksum)
  }

  // ---- writing a name ----

  predicate IsWideSpace(c: nat) { 9 <= c <= 13 || c == 32 }

  /** Not allowed: " * / : < > ? ` | */
  predicate IsForbidden(c: nat) {
    c == 0x22 || c == 0x2A || c == 0x2F || c == 0x3A || c == 0x3C || c == 0x3E || c == 0x3F || c == 0x60 || c == 0x7C
  }

  function TrimLeft(s: seq<nat>): (r: seq<nat>)
    ensures |r| <= |s|
    ensures r == [] || !IsWideSpace(r[0])
  {
    if s != [] && IsWideSpace(s[0]) then TrimLeft(s[1..]) else s
  }

  /** Drops trailing spaces and dots but never the first character. */
  function TrimRight(s: seq<nat>): (r: seq<nat>)
    ensures |r| <= |s| && r == s[..|r|] && (s != [] ==> r != [])
  {
    if |s| > 1 && (IsWideSpace(s[|s| - 1]) || s[|s| - 1] == '.' as nat) then TrimRight(s[..|s| - 1]) else s
  }

  function Trim(s: seq<nat>): seq<nat> { TrimRight(TrimLeft(s)) }

  /** White space or a dot. */
  predicate Trailing(c: nat) { c == 0x20 || 9 <= c <= 13 || c == 0x2E }

  /** Trimming takes away exactly the leading white space, and then the trailing white space and dots
      but never the first character that is left. */
  lemma TrimExactly(s: seq<nat>) returns (a: nat, b: nat)
    ensures a <= b <= |s| && Trim(s) == s[a..b]
    ensures forall i | 0 <= i < a :: s[i] == 0x20 || 9 <= s[i] <= 13
    ensures a < |s| ==> !(s[a] == 0x20 || 9 <= s[a] <= 13)
    ensures (a == |s| <==> a == b) && forall i | b <= i < |s| :: Trailing(s[i])
    ensures b > a + 1 ==> !Trailing(s[b - 1])
  {
    a := TrimLeftExactly(s);
    var k := TrimRightExactly(s[a..]);
    b := a + k;
    assert s[a..][..k] == s[a..b];
    forall i | b <= i < |s| ensures Trailing(s[i]) { assert s[a..][i - a] == s[i]; }
    if b > a + 1 { assert s[a..][k - 1] == s[b - 1]; }
  }

  lemma {:induction false} TrimLeftExactly(s: seq<nat>) returns (a: nat)
    ensures a <= |s| && TrimLeft(s) == s[a..]
    ensures forall i | 0 <= i < a :: s[i] == 0x20 || 9 <= s[i] <= 13
    ensures a < |s| ==> !(s[a] == 0x20 || 9 <= s[a] <= 13)
  {
    if s != [] && IsWideSpace(s[0]) {
      var k := TrimLeftExactly(s[1..]);
      a := k + 1;
      assert s[1..][k..] == s[a..];
      forall i | 0 <= i < a ensures s[i] == 0x20 || 9 <= s[i] <= 13 { if i > 0 { assert s[i] == s[1..][i - 1]; } }
    } else {
      a := 0;
    }
  }

  lemma {:induction false} TrimRightExactly(s: seq<nat>) returns (k: nat)
    ensures k <= |s| && TrimRight(s) == s[..k] && (s != [] ==> k > 0)
    ensures forall i | k <= i < |s| :: Trailing(s[i])
    ensures k > 1 ==> !Trailing(s[k - 1])
  {
    if |s| > 1 && Trailing(s[|s| - 1]) {
      k := TrimRightExactly(s[..|s| - 1]);
      assert s[..|s| - 1][..k] == s[..k];
    } else {
      k := |s|;
      assert s[..k] == s;
    }
  }

  /** Of the ASCII characters exactly these nine are refused: double quote, star, slash, colon, less,
      greater, question mark, back quote and vertical bar. The backslash is not among them. */
  const REFUSED: seq<char> := ['\U{22}', '*', '/', ':', '<', '>', '?', '`', '|']

  lemma ForbiddenExactly(c: nat)
    ensures IsForbidden(c) <==> c < 128 && c as char in REFUSED
  {
    if c < 128 && c as char in REFUSED {
      var k :| 0 <= k < 9 && REFUSED[k] == c as char;
    }
    if IsForbidden(c) {
      var s := REFUSED;
      assert s[0] == '\U{22}' && s[1] == '*' && s[2] == '/' && s[3] == ':' && s[4] == '<' && s[5] == '>' && s[6] == '?' && s[7] == '`' && s[8] == '|';
    }
  }

  ghost predicate Acceptable(name: seq<nat>) {
    1 <= |name| <= LONGNAME_LENGTH && forall i | 0 <= i < |name| :: !IsForbidden(name[i])
  }

  /** A name of 1 to 255 characters, none of which is refused. */
  lemma AcceptableExactly(name: seq<nat>)
    ensures Acceptable(name) <==>
              1 <= |name| < 256 && forall i | 0 <= i < |name| :: !(name[i] < 128 && name[i] as char in REFUSED)
  {
    forall i | 0 <= i < |name| ensures IsForbidden(name[i]) <==> name[i] < 128 && name[i] as char in REFUSED {
      ForbiddenExactly(name[i]);
    }
  }

  /** A link as InitLongFileNameLink leaves it: the second and third fill go to the first field
      again, so only that field and the reserved byte behind the attributes are filled. */
  function BlankLink(seqNo: nat, first: bool, checksum: Octet): Slot {
    Slot(seqNo, first, false, [0xFFFF, 0xFFFF, 0xFFFF, 0xFFFF, 0xFFFF], ATTR_LFN, 0xFF, checksum,
         [0, 0, 0, 0, 0, 0], 0, [0, 0])
  }

  /** `r` took characters from `src[at..]` up to `at'`: it is full, or holds the NUL found there. */
  ghost predicate Took(src: seq<nat>, at: nat, r: seq<u16>, at': nat) {
    && at <= at' < |src| && at' <= at + |r|
    && (forall i | at <= i < at' :: r[i - at] == Low16(src[i]) && src[i] != 0)
    && (at' < at + |r| ==> src[at'] == 0 && r[at' - at] == 0)
  }

  /** The zero-filled copy of the name that the links are cut from. */
  ghost predicate Copy(src: seq<nat>, name: seq<nat>) {
    && |src| == MAX_LONGNAME && |name| < |src| && src[..|name|] == name
    && forall i | |name| <= i < |src| :: src[i] == 0
  }

  /** Copies characters until the field is full or a NUL has been stored. */
  method PutChars(buf: seq<u16>, src: array<nat>, at: nat, ghost nul: nat) returns (r: seq<u16>, at': nat)
    requires at <= nul < src.Length && src[nul] == 0
    ensures |r| == |buf| && at' <= nul && Took(src[..], at, r, at')
    ensures forall k | at' - at < k < |r| :: r[k] == buf[k]
  {
    r, at' := buf, at;
    var i := 0;
    while i < |buf|
      invariant 0 <= i <= |buf| == |r| && at' == at + i <= nul
      invariant forall k | at <= k < at' :: r[k - at] == Low16(src[k]) && src[k] != 0
      invariant forall k | i <= k < |r| :: r[k] == buf[k]
    {
      r := r[i := Low16(src[at'])];
      if src[at'] == 0 {
        break;
      }
      i, at' := i + 1, at' + 1;
    }
  }

  lemma FieldsHold(src: seq<nat>, name: seq<nat>, at: nat, n1: seq<u16>, a1: nat, n2: seq<u16>, a2: nat, n3: seq<u16>, a3: nat)
    requires Copy(src, name) && at < |name| && forall i | 0 <= i < |name| :: name[i] != 0
    requires |n1| == 5 && |n2| == 6 && |n3| == 2
    requires Took(src, at, n1, a1) && Took(src, a1, n2, a2) && Took(src, a2, n3, a3)
    ensures var end, chars := if at + CHUNK < |name| then at + CHUNK else |name|, n1 + n2 + n3;
            && (forall i | at <= i < end :: chars[i - at] == Low16(name[i]))
            && (end - at < CHUNK ==> chars[end - at] == 0)
  {
    assert forall i | 0 <= i < |name| :: src[i] == name[i];
    assert forall i | 0 <= i < |src| :: src[i] == 0 <==> i >= |name|;
    assert src[|name|] == 0;
    var chars := n1 + n2 + n3;
    if a1 < at + 5 {
      assert a1 == |name| && chars[a1 - at] == n1[a1 - at];
    } else if a2 < a1 + 6 {
      assert a2 == |name| && chars[a2 - at] == n2[a2 - a1];
    } else if a3 < a2 + 2 {
      assert a3 == |name| && chars[a3 - at] == n3[a3 - a2];
    }
  }

  /** A field takes characters until it is full or the name ends. */
  lemma TookUpTo(src: seq<nat>, name: seq<nat>, at: nat, r: seq<u16>, at': nat)
    requires Copy(src, name) && at <= |name| && (forall i | 0 <= i < |name| :: name[i] != 0) && Took(src, at, r, at')
    ensures at' == if at + |r| < |name| then at + |r| else |name|
  {
    assert forall i | 0 <= i < |name| :: src[i] == name[i];
    assert src[|name|] == 0;
  }

  /** What the fields hold behind the NUL. */
  lemma FieldsPadded(src: seq<nat>, name: seq<nat>, at: nat, n1: seq<u16>, a1: nat, n2: seq<u16>, a2: nat, n3: seq<u16>, a3: nat)
    requires Copy(src, name) && at < |name| && (forall i | 0 <= i < |name| :: name[i] != 0)
    requires |n1| == 5 && |n2| == 6 && |n3| == 2
    requires Took(src, at, n1, a1) && Took(src, a1, n2, a2) && Took(src, a2, n3, a3)
    requires forall k | a1 - at < k < 5 :: n1[k] == 0xFFFF
    requires (forall k | a2 - a1 < k < 6 :: n2[k] == 0) && forall k | a3 - a2 < k < 2 :: n3[k] == 0
    ensures forall i | 0 <= i < 13 && at + i > |name| :: (n1 + n2 + n3)[i] == if i < 5 then 0xFFFF else 0
  {
    var c := n1 + n2 + n3;
    TookUpTo(src, name, at, n1, a1);
    TookUpTo(src, name, a1, n2, a2);
    TookUpTo(src, name, a2, n3, a3);
    forall i | 0 <= i < 13 && at + i > |name| ensures c[i] == if i < 5 then 0xFFFF else 0 {
      if i < 5 {
        assert c[i] == n1[i];
      } else if i < 11 {
        assert c[i] == n2[i - 5];
      } else {
        assert c[i] == n3[i - 11];
      }
    }
  }

  /** The three fields of a blank link with the name from `at` on copied in. */
  method PutFields(blank: Slot, src: array<nat>, ghost name: seq<nat>, at: nat) returns (n1: seq<u16>, n2: seq<u16>, n3: seq<u16>)
    requires Copy(src[..], name) && at < |name| && forall i | 0 <= i < |name| :: name[i] != 0
    requires blank.Valid() && (forall i | 0 <= i < 5 :: blank.name1[i] == 0xFFFF)
    requires (forall i | 0 <= i < 6 :: blank.name2[i] == 0) && forall i | 0 <= i < 2 :: blank.name3[i] == 0
    ensures |n1| == 5 && |n2| == 6 && |n3| == 2
    ensures var end, chars := if at + CHUNK < |name| then at + CHUNK else |name|, n1 + n2 + n3;
            && (forall i | at <= i < end :: chars[i - at] == Low16(name[i]))
            && (end - at < CHUNK ==> chars[end - at] == 0)
    ensures forall i | 0 <= i < 13 && at + i > |name| :: (n1 + n2 + n3)[i] == if i < 5 then 0xFFFF else 0
  {
    var a1, a2, a3;
    n1, a1 := PutChars(blank.name1, src, at, |name|);
    n2, a2 := PutChars(blank.name2, src, a1, |name|);
    n3, a3 := PutChars(blank.name3, src, a2, |name|);
    FieldsHold(src[..], name, at, n1, a1, n2, a2, n3, a3);
    FieldsPadded(src[..], name, at, n1, a1, n2, a2, n3, a3);
  }

  /** One link: the blank link with its part of the name copied in. */
  method PutLink(src: array<nat>, ghost name: seq<nat>, seqNo: nat, first: bool, checksum: Octet) returns (link: Slot)
    requires Copy(src[..], name) && forall i | 0 <= i < |name| :: name[i] != 0
    requires 1 <= seqNo <= LinkCount(|name|) <= MAX_CHAIN && first == (seqNo == LinkCount(|name|))
    ensures IsLink(link, name, seqNo) && link.checksum == checksum && Padded(link, name, seqNo)
  {
    link := BlankLink(seqNo, first, checksum);
    var n1, n2, n3 := PutFields(link, src, name, (seqNo - 1) * CHUNK);
    link := link.(name1 := n1, name2 := n2, name3 := n3);
  }

  /** Checks the characters of the name and makes the zero-filled copy. */
  method CopyName(name: seq<nat>) returns (ok: bool, copy: array<nat>)
    requires |name| < MAX_LONGNAME
    ensures fresh(copy)
    ensures ok <==> forall i | 0 <= i < |name| :: !IsForbidden(name[i])
    ensures ok ==> Copy(copy[..], name)
  {
    copy := new nat[MAX_LONGNAME](_ => 0);
    for i := 0 to |name|
      invariant forall k | 0 <= k < i :: copy[k] == name[k] && !IsForbidden(name[k])
      invariant forall k | i <= k < copy.Length :: copy[k] == 0
    {
      if IsForbidden(name[i]) {
        return false, copy;
      }
      copy[i] := name[i];
    }
    ok := true;
    assert copy[..][..|name|] == name;
  }

  /** Writes the links, highest sequence number first. */
  method PutLinks(table: array<Slot>, pos: nat, copy: array<nat>, ghost name: seq<nat>, n: nat, cksum: Octet) returns (pos': nat)
    requires Copy(copy[..], name) && forall i | 0 <= i < |name| :: name[i] != 0
    requires n == LinkCount(|name|) <= MAX_CHAIN && pos + n < table.Length
    modifies table
    ensures pos' == pos + n
    ensures forall i | pos <= i < pos' :: IsLink(table[i], name, pos + n - i) && table[i].checksum == cksum && Padded(table[i], name, pos + n - i)
    ensures forall i | 0 <= i < table.Length && !(pos <= i < pos') :: table[i] == old(table[i])
  {
    pos' := pos;
    var seqNo := n;
    ghost var src := copy[..];
    while seqNo > 0
      invariant 0 <= seqNo <= n && pos' == pos + n - seqNo
      invariant copy[..] == src
      invariant forall i | pos <= i < pos' :: IsLink(table[i], name, pos + n - i) && table[i].checksum == cksum && Padded(table[i], name, pos + n - i)
      invariant forall i | 0 <= i < table.Length && !(pos <= i < pos') :: table[i] == old(table[i])
    {
      var link := PutLink(copy, name, seqNo, seqNo == n, cksum);
      table[pos'] := link;
      seqNo, pos' := seqNo - 1, pos' + 1;
    }
  }

  /** The links of an acceptable name and the short-name entry fit at `pos`. */
  ghost predicate HasRoom(size: nat, pos: nat, src: seq<nat>) {
    Acceptable(Trim(src)) ==> pos + LinkCount(|Trim(src)|) < size
  }

  /** Writes the links of the trimmed name and then the short-name entry at `pos`, and advances
      `pos` to that entry. A name that is not acceptable changes nothing. */
  method SetLongName(table: array<Slot>, pos: nat, src: seq<nat>, sfn: Slot) returns (ok: bool, pos': nat)
    requires forall i | 0 <= i < |src| :: src[i] != 0
    requires sfn.Valid() && HasRoom(table.Length, pos, src)
    modifies table
    ensures ok <==> Acceptable(Trim(src))
    ensures !ok ==> pos' == pos && table[..] == old(table[..])
    ensures ok ==> pos' == pos + LinkCount(|Trim(src)|) <= pos + MAX_CHAIN && table[pos'] == sfn
    ensures ok ==> Encodes(table[..], pos, Trim(src))
    ensures ok ==> forall i | pos <= i < pos' :: table[i].checksum == ShortNameChecksum(sfn) && Padded(table[i], Trim(src), pos' - i)
    ensures ok ==> forall i | 0 <= i < table.Length && !(pos <= i <= pos') :: table[i] == old(table[i])
  {
    pos' := pos;
    TrimKeeps(src);
    var name := Trim(src);
    if |name| == 0 || |name| > LONGNAME_LENGTH {
      return false, pos;
    }
    var copy;
    ok, copy := CopyName(name);
    if !ok {
      return false, pos;
    }
    var cksum := GetShortNameChecksum(sfn);
    pos' := PutLinks(table, pos, copy, name, LinkCount(|name|), cksum);
    table[pos'] := sfn;
  }

  lemma TrimKeeps(s: seq<nat>)
    requires forall i | 0 <= i < |s| :: s[i] != 0
    ensures forall i | 0 <= i < |Trim(s)| :: Trim(s)[i] != 0
  {
    TrimLeftKeeps(s);
  }

  lemma {:induction false} TrimLeftKeeps(s: seq<nat>)
    requires forall i | 0 <= i < |s| :: s[i] != 0
    ensures forall i | 0 <= i < |TrimLeft(s)| :: TrimLeft(s)[i] != 0
  {
    if s != [] && IsWideSpace(s[0]) { TrimLeftKeeps(s[1..]); }
  }

  // ---- reading a name ----

  ghost predicate Narrow(name: seq<nat>) {
    1 <= |name| <= LONGNAME_LENGTH && forall i | 0 <= i < |name| :: 0 < name[i] < 65536
  }

  /** A chain can be read from this slot. */
  predicate StartsChain(e: Slot) { !e.IsDeleted() && e.IsLongFileName() && e.firstInChain }

  /** That takes the mark of the last link in byte 0, which must not be 0xE5, the low four attribute bits,
      and no first cluster. */
  lemma StartsExactly(e: Slot)
    requires e.Valid()
    ensures StartsChain(e) <==>
              e.firstInChain && !(e.reserved1 && e.sequence == 0x25) && e.attributes as int % 16 == 0x0F && e.firstCluster == 0
  {
  }

  /** Characters up to and including a NUL fit at position `at` of a buffer. */
  predicate FitsAt(size: nat, at: nat, chars: seq<u16>) {
    at + NulAt(chars) < size || (NulAt(chars) == |chars| && at + |chars| <= size)
  }

  /** The buffer after characters up to and including a NUL have been copied to position `at`. */
  function Laid(dst: seq<nat>, at: nat, chars: seq<u16>): (r: seq<nat>)
    requires FitsAt(|dst|, at, chars)
    ensures |r| == |dst|
  {
    var k := NulAt(chars);
    seq(|dst|, i requires 0 <= i < |dst| =>
      if at <= i < at + k then chars[i - at] else if i == at + k && k < |chars| then 0 else dst[i])
  }

  /** Copying two fields one after the other, stopping at a NUL, is copying both at once. */
  lemma LaidTwo(dst: seq<nat>, at: nat, a: seq<u16>, b: seq<u16>)
    requires FitsAt(|dst|, at, a + b)
    ensures FitsAt(|dst|, at, a)
    ensures NulAt(a) < |a| ==> NulAt(a + b) == NulAt(a) && Laid(dst, at, a + b) == Laid(dst, at, a)
    ensures NulAt(a) == |a| ==>
              && NulAt(a + b) == |a| + NulAt(b) && FitsAt(|dst|, at + |a|, b)
              && Laid(dst, at, a + b) == Laid(Laid(dst, at, a), at + |a|, b)
  {
    NulAtUnique(a + b, if NulAt(a) < |a| then NulAt(a) else |a| + NulAt(b));
  }

  /** Copies characters to `dst` until the field ends or a NUL has been copied. */
  method YankChars(dst: array<nat>, at: nat, buf: seq<u16>, nulSeen: bool, len: nat)
    returns (at': nat, nulSeen': bool, len': nat)
    requires !nulSeen ==> FitsAt(dst.Length, at, buf)
    modifies dst
    ensures nulSeen ==> at' == at && nulSeen' && len' == len && dst[..] == old(dst[..])
    ensures !nulSeen ==>
              && at' == at + NulAt(buf) && len' == len + NulAt(buf) && (nulSeen' <==> NulAt(buf) < |buf|)
              && dst[..] == Laid(old(dst[..]), at, buf)
  {
    at', nulSeen', len' := at, nulSeen, len;
    if nulSeen {
      return;
    }
    var i := 0;
    while i < |buf|
      invariant 0 <= i <= NulAt(buf) && at' == at + i && len' == len + i
      invariant forall k | at <= k < at' :: dst[k] == buf[k - at]
      invariant forall k | 0 <= k < dst.Length && !(at <= k < at') :: dst[k] == old(dst[k])
    {
      dst[at'] := buf[i];
      if buf[i] == 0 {
        nulSeen' := true;
        break;
      }
      i, at', len' := i + 1, at' + 1, len' + 1;
    }
  }

  /** Copies the characters of one link to its place in `dst`. */
  method YankLink(dst: array<nat>, bucket: nat, link: Slot, len: nat) returns (len': nat)
    requires link.Valid() && FitsAt(dst.Length, bucket, link.Chars())
    modifies dst
    ensures len' == len + NulAt(link.Chars()) && dst[..] == Laid(old(dst[..]), bucket, link.Chars())
  {
    ghost var ab := link.name1 + link.name2;
    LaidTwo(dst[..], bucket, ab, link.name3);
    LaidTwo(dst[..], bucket, link.name1, link.name2);
    var at, nul := bucket, false;
    at, nul, len' := YankChars(dst, at, link.name1, nul, len);
    at, nul, len' := YankChars(dst, at, link.name2, nul, len');
    at, nul, len' := YankChars(dst, at, link.name3, nul, len');
  }

  // ---- any chain ----

  /** Number of links up to the one with sequence number 1 or 0. */
  function Links(table: seq<Slot>, pos: nat): (n: nat)
    ensures pos <= |table| ==> pos + n <= |table|
    decreases |table| - pos
  {
    if pos >= |table| then 0 else if table[pos].sequence <= 1 then 1 else 1 + Links(table, pos + 1)
  }

  /** The link can be copied: its number passes the assertion and its characters stay in the buffer. */
  predicate CanYank(size: nat, link: Slot) {
    link.Valid() && 1 <= link.sequence <= MAX_CHAIN && FitsAt(size, (link.sequence - 1) * CHUNK, link.Chars())
  }

  /** The buffer after the first `k` links at `pos`. */
  function Yanked(dst: seq<nat>, table: seq<Slot>, pos: nat, k: nat): (r: seq<nat>)
    ensures |r| == |dst|
  {
    if k == 0 then dst
    else
      var d := Yanked(dst, table, pos, k - 1);
      if pos + k <= |table| && CanYank(|d|, table[pos + k - 1])
      then Laid(d, (table[pos + k - 1].sequence - 1) * CHUNK, table[pos + k - 1].Chars()) else d
  }

  /** Characters counted in the first `k` links. */
  function YankLength(table: seq<Slot>, pos: nat, k: nat): nat {
    if k == 0 then 0 else YankLength(table, pos, k - 1) + if pos + k <= |table| then NulAt(table[pos + k - 1].Chars()) else 0
  }

  /** The checksum test on the chain at `pos`. */
  predicate ChainPasses(table: seq<Slot>, pos: nat, key: Octet)
    requires pos < |table| && pos + Links(table, pos) < |table| && table[pos + Links(table, pos)].Valid()
  {
    var n := Links(table, pos);
    Passes(Checksums(table, pos, n), ShortNameChecksum(table[pos + n]), key)
  }

  /** Reading the chain stays inside the directory and inside the 256-character buffer. */
  ghost predicate Readable(table: seq<Slot>, pos: nat, key: Octet) {
    && pos < |table| && pos + Links(table, pos) < |table| && table[pos + Links(table, pos)].Valid()
    && AllYank(table, pos)
    && (ChainPasses(table, pos, key) ==> YankLength(table, pos, Links(table, pos)) < MAX_LONGNAME)
  }

  /** The buffer after reading: what the links hold, cut at the counted length when the checksums
      pass and at the start otherwise. */
  ghost function ReadName(dst: seq<nat>, table: seq<Slot>, pos: nat, key: Octet): (r: seq<nat>)
    requires |dst| == MAX_LONGNAME && Readable(table, pos, key)
    ensures |r| == |dst|
  {
    var n := Links(table, pos);
    Yanked(dst, table, pos, n)[(if ChainPasses(table, pos, key) then YankLength(table, pos, n) else 0) := 0]
  }

  /** The rolling checksum after `k` links. */
  function Rolled(table: seq<Slot>, pos: nat, key: Octet, k: nat): Octet
    requires pos + k <= |table|
  {
    if k == 0 then key else Xor(Rolled(table, pos, key, k - 1), table[pos + k - 1].checksum)
  }

  lemma {:induction false} RolledIs(table: seq<Slot>, pos: nat, key: Octet, k: nat)
    requires pos + k <= |table|
    ensures Rolled(table, pos, key, k) == Xor(key, XorAll(Checksums(table, pos, k)))
  {
    if k == 0 {
      XorZero(key, ZERO);
    } else {
      RolledIs(table, pos, key, k - 1);
      assert Checksums(table, pos, k)[..k - 1] == Checksums(table, pos, k - 1);
      XorAssoc(key, XorAll(Checksums(table, pos, k - 1)), table[pos + k - 1].checksum);
    }
  }

  /** The loop variables after `count` links. */
  ghost predicate Walked(dst: seq<nat>, table: seq<Slot>, pos: nat, key: Octet, dst0: seq<nat>, count: nat, len: nat, cksum: Octet) {
    && pos + count <= |table| && dst == Yanked(dst0, table, pos, count)
    && len == YankLength(table, pos, count) && cksum == Rolled(table, pos, key, count)
  }

  /** Every link of the chain can be copied. */
  ghost predicate AllYank(table: seq<Slot>, pos: nat) {
    forall i | 0 <= i < |table| && pos <= i < pos + Links(table, pos) :: CanYank(MAX_LONGNAME, table[i])
  }

  function SumAt(table: seq<Slot>, i: nat): Octet
    requires i < |table|
  {
    table[i].checksum
  }

  /** Copies the link `count` links behind `pos` and rolls in its checksum. */
  method YankNext(dst: array<nat>, table: seq<Slot>, pos: nat, count: nat, len: nat, cksum: Octet, ghost key: Octet, ghost dst0: seq<nat>)
    returns (len': nat, cksum': Octet, lastsum: Octet, more: bool)
    requires |dst0| == dst.Length == MAX_LONGNAME && count < Links(table, pos) && pos + Links(table, pos) < |table|
    requires AllYank(table, pos) && Walked(dst[..], table, pos, key, dst0, count, len, cksum)
    modifies dst
    ensures Walked(dst[..], table, pos, key, dst0, count + 1, len', cksum') && lastsum == SumAt(table, pos + count)
    ensures Links(table, pos + count) == 1 + if more then Links(table, pos + count + 1) else 0
  {
    var link := table[pos + count];
    len' := YankLink(dst, (link.sequence - 1) * CHUNK, link, len);
    cksum', lastsum := Xor(cksum, link.checksum), link.checksum;
    more := link.sequence > 1;
  }

  /** Walks the chain at `pos`: copies its characters and rolls up its checksums. */
  method YankChain(dst: array<nat>, table: seq<Slot>, pos: nat, key: Octet)
    returns (pos': nat, len: nat, count: nat, cksum: Octet, lastsum: Octet)
    requires dst.Length == MAX_LONGNAME && pos < |table| && pos + Links(table, pos) < |table| && AllYank(table, pos)
    modifies dst
    ensures count == Links(table, pos) && pos' == pos + count && 0 < count
    ensures Walked(dst[..], table, pos, key, old(dst[..]), count, len, cksum) && lastsum == SumAt(table, pos + count - 1)
  {
    pos', len, count, cksum, lastsum := pos, 0, 0, key, ZERO;
    ghost var n, dst0 := Links(table, pos), dst[..];
    var more := true;
    while more
      invariant 0 <= count <= n && pos' == pos + count && n - count == if more then Links(table, pos') else 0
      invariant Walked(dst[..], table, pos, key, dst0, count, len, cksum)
      invariant if more then count < n else 0 < count && lastsum == SumAt(table, pos' - 1)
      decreases n - count, more
    {
      len, cksum, lastsum, more := YankNext(dst, table, pos, count, len, cksum, key, dst0);
      count, pos' := count + 1, pos' + 1;
    }
  }

  /** Reads the long name that starts at `pos` into `dst` and returns the position of the
      short-name entry behind it. */
  method GetLongName(dst: array<nat>, table: seq<Slot>, pos: nat, key: Octet) returns (pos': nat)
    requires dst.Length == MAX_LONGNAME && pos < |table|
    requires StartsChain(table[pos]) ==> Readable(table, pos, key)
    modifies dst
    ensures !StartsChain(table[pos]) ==> pos' == pos && dst[..] == old(dst[..])
    ensures StartsChain(table[pos]) ==> pos' == pos + Links(table, pos) && dst[..] == ReadName(old(dst[..]), table, pos, key)
  {
    pos' := pos;
    if table[pos].IsDeleted() || !table[pos].IsLongFileName() || !table[pos].firstInChain {
      return;
    }
    var len, count, cksum, lastsum;
    pos', len, count, cksum, lastsum := YankChain(dst, table, pos, key);
    var compsum := GetShortNameChecksum(table[pos']);
    TestIsPasses(table, pos, key);
    if !TestPasses(count, cksum, lastsum, compsum, key) {
      len := 0;
    }
    dst[len] := 0;
  }

  /** The outcome of the comparison at the end of the walk. */
  predicate TestPasses(count: nat, cksum: Octet, lastsum: Octet, compsum: Octet, key: Octet) {
    (if count % 2 == 1 then Xor(cksum, lastsum) else cksum) == key && lastsum == compsum
  }

  lemma TestIsPasses(table: seq<Slot>, pos: nat, key: Octet)
    requires pos < |table| && pos + Links(table, pos) < |table| && table[pos + Links(table, pos)].Valid()
    ensures var n := Links(table, pos);
            ChainPasses(table, pos, key) ==
            TestPasses(n, Rolled(table, pos, key, n), SumAt(table, pos + n - 1), ShortNameChecksum(table[pos + n]), key)
  {
    var n := Links(table, pos);
    RolledIs(table, pos, key, n);
    assert Checksums(table, pos, n)[n - 1] == table[pos + n - 1].checksum;
  }

  // ---- chains that hold a name ----

  /** The part of the name a link gives back. */
  lemma LinkYields(link: Slot, name: seq<nat>, seqNo: nat)
    requires Narrow(name) && 1 <= seqNo <= LinkCount(|name|) && HoldsChunk(link, name, seqNo)
    ensures NulAt(link.Chars()) == ChunkEnd(|name|, seqNo) - (seqNo - 1) * CHUNK
    ensures forall i | (seqNo - 1) * CHUNK <= i < ChunkEnd(|name|, seqNo) :: link.Chars()[i - (seqNo - 1) * CHUNK] == name[i]
  {
    var start, end := (seqNo - 1) * CHUNK, ChunkEnd(|name|, seqNo);
    forall i | 0 <= i < end - start ensures link.Chars()[i] != 0 {
      assert link.Chars()[start + i - start] == Low16(name[start + i]);
    }
    NulAtUnique(link.Chars(), end - start);
  }

  /** Links above `k` have been read: their characters are in place. */
  ghost predicate Gathered(dst: seq<nat>, name: seq<nat>, k: nat, len: nat) {
    && |name| <= |dst| && len == (if k * CHUNK < |name| then |name| - k * CHUNK else 0)
    && forall i | k * CHUNK <= i < |name| :: dst[i] == name[i]
  }

  lemma EncodedLink(table: seq<Slot>, pos: nat, name: seq<nat>, k: nat)
    requires Encodes(table, pos, name) && k < LinkCount(|name|)
    ensures pos + k < |table| && IsLink(table[pos + k], name, LinkCount(|name|) - k)
  {
  }

  lemma {:induction false} EncodedLinks(table: seq<Slot>, pos: nat, name: seq<nat>, k: nat)
    requires Narrow(name) && Encodes(table, pos, name) && k < LinkCount(|name|)
    ensures Links(table, pos + k) == LinkCount(|name|) - k
    decreases LinkCount(|name|) - k
  {
    EncodedLink(table, pos, name, k);
    if k + 1 < LinkCount(|name|) { EncodedLinks(table, pos, name, k + 1); }
  }

  /** One link: its part of the name lands in its place. */
  lemma OneGathered(dst: seq<nat>, link: Slot, name: seq<nat>, k: nat, len: nat)
    requires |dst| == MAX_LONGNAME && Narrow(name) && 1 <= k <= LinkCount(|name|) && IsLink(link, name, k)
    requires Gathered(dst, name, k, len)
    ensures CanYank(MAX_LONGNAME, link)
    ensures Gathered(Laid(dst, (link.sequence - 1) * CHUNK, link.Chars()), name, k - 1, len + NulAt(link.Chars()))
  {
    LinkYields(link, name, k);
  }

  lemma {:induction false} EncodedYanks(dst: seq<nat>, table: seq<Slot>, pos: nat, name: seq<nat>, k: nat)
    requires |dst| == MAX_LONGNAME && Narrow(name) && Encodes(table, pos, name) && k <= LinkCount(|name|)
    ensures Gathered(Yanked(dst, table, pos, k), name, LinkCount(|name|) - k, YankLength(table, pos, k))
    ensures k > 0 ==> CanYank(MAX_LONGNAME, table[pos + k - 1])
  {
    if k > 0 {
      EncodedYanks(dst, table, pos, name, k - 1);
      EncodedLink(table, pos, name, k - 1);
      OneGathered(Yanked(dst, table, pos, k - 1), table[pos + k - 1], name, LinkCount(|name|) - k + 1, YankLength(table, pos, k - 1));
    }
  }

  /** What the buffer holds after reading the links of `name`: the name when the checksums pass,
      else nothing. */
  ghost predicate Reads(dst: seq<nat>, passes: bool, name: seq<nat>) {
    && |dst| == MAX_LONGNAME && |name| < MAX_LONGNAME
    && if passes then dst[..|name|] == name && dst[|name|] == 0 else dst[0] == 0
  }

  lemma EncodedAllYank(dst: seq<nat>, table: seq<Slot>, pos: nat, name: seq<nat>)
    requires |dst| == MAX_LONGNAME && Narrow(name) && Encodes(table, pos, name)
    ensures Links(table, pos) == LinkCount(|name|) && AllYank(table, pos)
  {
    EncodedLinks(table, pos, name, 0);
    forall i | 0 <= i < |table| && pos <= i < pos + LinkCount(|name|) ensures CanYank(MAX_LONGNAME, table[i]) {
      EncodedYanks(dst, table, pos, name, i - pos + 1);
    }
  }

  /** The links of a name can be read, and give the name exactly when the checksums pass. */
  lemma EncodedReads(dst: seq<nat>, table: seq<Slot>, pos: nat, name: seq<nat>, key: Octet)
    requires |dst| == MAX_LONGNAME && Narrow(name) && Encodes(table, pos, name)
    ensures Links(table, pos) == LinkCount(|name|) && Readable(table, pos, key)
    ensures Reads(ReadName(dst, table, pos, key), ChainPasses(table, pos, key), name)
  {
    var n := LinkCount(|name|);
    EncodedAllYank(dst, table, pos, name);
    EncodedYanks(dst, table, pos, name, n);
    GatheredAll(Yanked(dst, table, pos, n), name, YankLength(table, pos, n));
  }

  lemma GatheredAll(d: seq<nat>, name: seq<nat>, len: nat)
    requires |d| == MAX_LONGNAME && Narrow(name) && Gathered(d, name, 0, len)
    ensures len == |name| < MAX_LONGNAME && d[len := 0][..|name|] == name && d[len := 0][|name|] == 0
  {
  }

  /** A name written by SetLongName starts a chain. */
  lemma EncodedStarts(table: seq<Slot>, pos: nat, name: seq<nat>)
    requires Narrow(name) && Encodes(table, pos, name)
    ensures StartsChain(table[pos])
  {
    assert IsLink(table[pos], name, LinkCount(|name|));
  }

  /** Round trip: writing any accepted name and reading it back, with any key, gives the trimmed
      name and the short-name entry. Characters are 16 bits wide on disk. */
  method SetThenGet(table: array<Slot>, pos: nat, src: seq<nat>, sfn: Slot, key: Octet, dst: array<nat>)
    returns (ok: bool, entry: nat)
    requires forall i | 0 <= i < |src| :: 0 < src[i] < 65536
    requires sfn.Valid() && HasRoom(table.Length, pos, src) && dst.Length == MAX_LONGNAME
    modifies table, dst
    ensures ok <==> Acceptable(Trim(src))
    ensures ok ==> entry < table.Length && table[entry] == sfn
    ensures ok ==> dst[..|Trim(src)|] == Trim(src) && dst[|Trim(src)|] == 0
  {
    ok, entry := SetLongName(table, pos, src, sfn);
    if ok {
      TrimNarrow(src);
      ghost var slots := table[..];
      IntactReads(dst[..], slots, pos, Trim(src), key);
      var at := GetLongName(dst, table[..], pos, key);
      assert at == entry && table[..] == slots;
    }
  }

  /** A chain with right checksums gives its name back, whatever the key. */
  lemma IntactReads(dst: seq<nat>, table: seq<Slot>, pos: nat, name: seq<nat>, key: Octet)
    requires |dst| == MAX_LONGNAME && Narrow(name) && Encodes(table, pos, name)
    requires forall i | pos <= i < pos + LinkCount(|name|) :: table[i].checksum == ShortNameChecksum(table[pos + LinkCount(|name|)])
    ensures StartsChain(table[pos]) && Links(table, pos) == LinkCount(|name|) && Readable(table, pos, key)
    ensures var r := ReadName(dst, table, pos, key); r[..|name|] == name && r[|name|] == 0
  {
    var n := LinkCount(|name|);
    EncodedStarts(table, pos, name);
    IntactPasses(Checksums(table, pos, n), ShortNameChecksum(table[pos + n]), key);
    EncodedReads(dst, table, pos, name, key);
  }

  lemma TrimNarrow(s: seq<nat>)
    requires forall i | 0 <= i < |s| :: 0 < s[i] < 65536
    ensures forall i | 0 <= i < |Trim(s)| :: 0 < Trim(s)[i] < 65536
  {
    TrimLeftNarrow(s);
  }

  lemma {:induction false} TrimLeftNarrow(s: seq<nat>)
    requires forall i | 0 <= i < |s| :: 0 < s[i] < 65536
    ensures forall i | 0 <= i < |TrimLeft(s)| :: 0 < TrimLeft(s)[i] < 65536
  {
    if s != [] && IsWideSpace(s[0]) { TrimLeftNarrow(s[1..]); }
  }

  lemma TamperedEncodes(table: seq<Slot>, pos: nat, name: seq<nat>, j: nat, x: Octet)
    requires Encodes(table, pos, name) && j < LinkCount(|name|)
    ensures var t, n := table[pos + j := table[pos + j].(checksum := x)], LinkCount(|name|);
            && Encodes(t, pos, name) && t[pos + n] == table[pos + n]
            && Checksums(t, pos, n) == Checksums(table, pos, n)[j := x]
  {
    var t, n := table[pos + j := table[pos + j].(checksum := x)], LinkCount(|name|);
    forall i | pos <= i < pos + n ensures IsLink(t[i], name, pos + n - i) {
      assert IsLink(table[i], name, pos + n - i);
    }
  }

  /** A chain whose checksums were right reads as the empty name once one of them is changed. */
  lemma TamperedReadsEmpty(table: seq<Slot>, pos: nat, name: seq<nat>, j: nat, x: Octet, key: Octet, dst: seq<nat>)
    requires |dst| == MAX_LONGNAME && Narrow(name) && Encodes(table, pos, name) && j < LinkCount(|name|)
    requires forall i | pos <= i < pos + LinkCount(|name|) :: table[i].checksum == ShortNameChecksum(table[pos + LinkCount(|name|)])
    requires x != table[pos + j].checksum
    ensures var t := table[pos + j := table[pos + j].(checksum := x)];
            Readable(t, pos, key) && ReadName(dst, t, pos, key)[0] == 0
  {
    var n := LinkCount(|name|);
    TamperedEncodes(table, pos, name, j, x);
    EncodedReads(dst, table[pos + j := table[pos + j].(checksum := x)], pos, name, key);
    OneChangeFails(Checksums(table, pos, n), ShortNameChecksum(table[pos + n]), key, j, x);
  }
}
