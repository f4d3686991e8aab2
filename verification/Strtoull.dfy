/**
 _strtoull: skipping blanks, reading a sign and a radix prefix, then digits.
 */
module Strtoull {
  import opened Numerals

  /** The string is followed by a NUL. */
  function At(s: string, i: nat): char { if i < |s| then s[i] else '\0' }

  predicate IsX(c: char) { c == 'x' || c == 'X' }

  predicate IsDigitOf(c: char, base: nat) { IsAlnum(c) && DigitValue(c) < base }

  function SkipSpaces(s: string, i: nat): (r: nat)
    requires i <= |s|
    ensures i <= r <= |s| && !IsSpace(At(s, r))
    ensures forall k | i <= k < r :: IsSpace(s[k])
    decreases |s| - i
  {
    if i < |s| && IsSpace(s[i]) then SkipSpaces(s, i + 1) else i
  }

  function SkipX(s: string, i: nat): (r: nat)
    requires i <= |s|
    ensures i <= r <= |s| && !IsX(At(s, r))
    ensures forall k | i <= k < r :: IsX(s[k])
    decreases |s| - i
  {
    if i < |s| && IsX(s[i]) then SkipX(s, i + 1) else i
  }

  /** End of the run of digits of `base` that starts at `i`. */
  function RunEnd(s: string, i: nat, base: nat): (r: nat)
    requires i <= |s|
    ensures i <= r <= |s| && !IsDigitOf(At(s, r), base)
    ensures forall k | i <= k < r :: IsDigitOf(s[k], base)
    decreases |s| - i
  {
    if i < |s| && IsDigitOf(s[i], base) then RunEnd(s, i + 1, base) else i
  }

  /** After the radix prefix: where the digits start, their base, and whether a zero was seen. */
  datatype Head = Head(at: nat, base: nat, zero: bool)

  /** A leading zero selects base 8 whatever base was asked for; any number of x after it
      selects base 16. */
  function ReadPrefix(s: string, i: nat, base: nat): (h: Head)
    requires i <= |s|
    ensures i <= h.at <= |s|
  {
    if base == 0 || base == 8 || base == 16 then
      if At(s, i) == '0' then
        var j := SkipX(s, i + 1);
        Head(j, if j > i + 1 then 16 else 8, true)
      else Head(i, if base == 0 then 10 else base, false)
    else Head(i, base, false)
  }

  function Negate(v: u64): u64 { if v == 0 then 0 else WORD64 - v }

  predicate IsSign(c: char) { c == '+' || c == '-' }

  function SignEnd(s: string): (r: nat)
    ensures r <= |s|
  {
    var i := SkipSpaces(s, 0);
    if IsSign(At(s, i)) then i + 1 else i
  }

  predicate IsNegative(s: string) { At(s, SkipSpaces(s, 0)) == '-' }

  function HeadOf(s: string, base: nat): Head { ReadPrefix(s, SignEnd(s), base) }

  /** The number that the string denotes, wrapped to 64 bits. */
  function Parsed(s: string, base: nat): u64 {
    var h := HeadOf(s, base);
    var v := Value(0, s[h.at..RunEnd(s, h.at, h.base)], h.base) % WORD64;
    if IsNegative(s) then Negate(v) else v
  }

  /** What str_end points to; for a bare "0x" that is the x. */
  function ParsedEnd(s: string, base: nat): nat {
    var h := HeadOf(s, base);
    var e := RunEnd(s, h.at, h.base);
    if !h.zero && e == h.at then 0
    else if e == h.at && h.base == 16 && h.zero then e - 1
    else e
  }

  predicate ValidBase(base: nat) { base == 0 || 2 <= base <= 36 }

  datatype State = InSpace | InSign | InZeroX | InDigits

  /** The variables of the loop. */
  datatype Machine = Machine(
    state: State, p: nat, base: nat, negative: bool, signSeen: bool, zeroSeen: bool, valid: bool, value: u64, length: nat)

  predicate Prefixable(base: nat) { base == 0 || base == 8 || base == 16 }

  /** Between the sign and the digits: nothing read yet, or a zero and some x. */
  ghost predicate InPrefix(s: string, base0: nat, m: Machine) {
    var i := SignEnd(s);
    && m.negative == IsNegative(s) && m.value == 0 && m.length == 0 && m.p <= |s| && m.valid == m.zeroSeen
    && if m.zeroSeen then
         && Prefixable(base0) && At(s, i) == '0' && i < m.p
         && SkipX(s, m.p) == SkipX(s, i + 1) && m.base == (if m.p > i + 1 then 16 else 8)
       else m.p == i && m.base == base0
  }

  /** Among the digits. */
  ghost predicate InNumber(s: string, base0: nat, m: Machine) {
    var h := HeadOf(s, base0);
    && m.negative == IsNegative(s) && m.zeroSeen == h.zero && m.base == h.base && h.at <= m.p <= |s|
    && RunEnd(s, m.p, m.base) == RunEnd(s, h.at, m.base) && m.length == m.p - h.at
    && (forall k | h.at <= k < m.p :: IsDigitOf(s[k], m.base))
    && m.value == Value(0, s[h.at..m.p], m.base) % WORD64 && m.valid == (m.zeroSeen || m.length > 0)
  }

  /** Where the machine stands before it looks at character `p`. */
  ghost predicate Stands(s: string, base0: nat, m: Machine) {
    match m.state
    case InSpace =>
      && m == Machine(InSpace, m.p, base0, false, false, false, false, 0, 0)
      && m.p <= |s| && SkipSpaces(s, m.p) == SkipSpaces(s, 0)
    case InSign => m.signSeen && !m.zeroSeen && InPrefix(s, base0, m)
    case InZeroX => m.zeroSeen && InPrefix(s, base0, m)
    case InDigits => InNumber(s, base0, m)
  }

  /** The character is not part of the prefix: the digits start here. */
  lemma PrefixOver(s: string, base0: nat, m: Machine)
    requires InPrefix(s, base0, m)
    requires Prefixable(m.base) ==> (m.zeroSeen || At(s, m.p) != '0') && !(m.zeroSeen && IsX(At(s, m.p)))
    ensures InNumber(s, base0, m.(state := InDigits, base := if m.base == 0 then 10 else m.base))
  {
    assert s[m.p..m.p] == "";
  }

  lemma OneDigit(s: string, base0: nat, m: Machine)
    requires InNumber(s, base0, m) && m.state == InDigits && IsDigitOf(At(s, m.p), m.base)
    ensures InNumber(s, base0, m.(p := m.p + 1, length := m.length + 1, valid := true,
                                  value := (m.value * m.base + DigitValue(At(s, m.p))) % WORD64))
  {
    ValueStep(s, HeadOf(s, base0).at, m.p, m.base);
  }

  lemma DigitsOver(s: string, base0: nat, m: Machine)
    requires InNumber(s, base0, m) && !IsDigitOf(At(s, m.p), m.base)
    ensures Parsed(s, base0) == if m.negative then Negate(m.value) else m.value
    ensures ParsedEnd(s, base0) == if !m.valid then 0 else if m.length == 0 && m.base == 16 && m.zeroSeen then m.p - 1 else m.p
  {
    assert RunEnd(s, m.p, m.base) == m.p;
  }

  lemma ValueStep(s: string, from: nat, p: nat, base: nat)
    requires from <= p < |s|
    ensures Value(0, s[from..p + 1], base) % WORD64 == ((Value(0, s[from..p], base) % WORD64) * base + DigitValue(s[p])) % WORD64
  {
    ValueAppend(0, s[from..p], s[p], base);
    assert s[from..p + 1] == s[from..p] + [s[p]];
    ModStep(Value(0, s[from..p], base), base, DigitValue(s[p]));
  }

  lemma ModStep(v: nat, base: nat, d: nat)
    ensures (v * base + d) % WORD64 == ((v % WORD64) * base + d) % WORD64
  {
    var q, r := v / WORD64, v % WORD64;
    assert v * base + d == (q * base) * WORD64 + (r * base + d);
    ModMultiple(q * base, r * base + d);
  }

  lemma ModMultiple(k: nat, x: nat)
    ensures (k * WORD64 + x) % WORD64 == x % WORD64
  {
  }

  /** The loop of _strtoull. An invalid base gives 0. */
  method StrToULL(s: string, base0: nat) returns (value: u64, end: nat)
    requires '\0' !in s
    ensures ValidBase(base0) ==> value == Parsed(s, base0) && end == ParsedEnd(s, base0)
    ensures !ValidBase(base0) ==> value == 0
  {
    if (base0 < 2 || base0 > 36) && base0 != 0 {
      return 0, 0;
    }
    var m := Machine(InSpace, 0, base0, false, false, false, false, 0, 0);
    var going := true;
    while going
      invariant if going then Stands(s, base0, m) else InNumber(s, base0, m) && !IsDigitOf(At(s, m.p), m.base)
      decreases going, |s| - m.p
    {
      going, m := Look(s, base0, m);
    }
    DigitsOver(s, base0, m);
    value := if m.negative then Negate(m.value) else m.value;
    end := if !m.valid then 0 else if m.length == 0 && m.base == 16 && m.zeroSeen then m.p - 1 else m.p;
  }

  /** One pass of the loop body: `going` is false when it breaks. */
  method Look(s: string, ghost base0: nat, before: Machine) returns (going: bool, m: Machine)
    requires '\0' !in s && Stands(s, base0, before)
    ensures if going then Stands(s, base0, m) && m.p == before.p + 1
            else InNumber(s, base0, m) && !IsDigitOf(At(s, m.p), m.base)
  {
    going, m := ReadHead(s, base0, before);
    if going {
      return;
    }
    var c := At(s, m.p);
    if !IsAlnum(c) || DigitValue(c) >= m.base {
      return false, m;
    }
    OneDigit(s, base0, m);
    return true, m.(value := (m.value * m.base + DigitValue(c)) % WORD64, valid := true, length := m.length + 1, p := m.p + 1);
  }

  /** The states before the digits; `taken` when the character belongs to them. */
  method ReadHead(s: string, ghost base0: nat, before: Machine) returns (taken: bool, m: Machine)
    requires '\0' !in s && Stands(s, base0, before)
    ensures if taken then Stands(s, base0, m) && m.p == before.p + 1
            else m.state == InDigits && InNumber(s, base0, m) && m.p == before.p
  {
    taken, m := false, before;
    var c := At(s, m.p);
    if m.state == InSpace {
      if IsSpace(c) {
        return true, m.(p := m.p + 1);
      }
      assert m.p == SkipSpaces(s, 0);
      m := m.(state := InSign);
    }
    if m.state == InSign {
      if !m.signSeen && IsSign(c) {
        return true, m.(signSeen := true, negative := c == '-', p := m.p + 1);
      }
      m := m.(state := InZeroX);
      assert InPrefix(s, base0, m);
    }
    if m.state == InZeroX {
      taken, m := ReadZeroX(s, base0, m);
    }
  }

  method ReadZeroX(s: string, ghost base0: nat, before: Machine) returns (taken: bool, m: Machine)
    requires '\0' !in s && before.state == InZeroX && InPrefix(s, base0, before)
    ensures if taken then Stands(s, base0, m) && m.p == before.p + 1
            else m.state == InDigits && InNumber(s, base0, m) && m.p == before.p
  {
    m := before;
    var c := At(s, m.p);
    if Prefixable(m.base) {
      if !m.zeroSeen && c == '0' {
        return true, m.(zeroSeen := true, base := 8, valid := true, p := m.p + 1);
      }
      if m.zeroSeen && IsX(c) {
        return true, m.(base := 16, p := m.p + 1);
      }
    }
    PrefixOver(s, base0, m);
    return false, m.(state := InDigits, base := if m.base == 0 then 10 else m.base);
  }
}
