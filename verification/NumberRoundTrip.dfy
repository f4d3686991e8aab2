/**
 Reading back what printf wrote: which conversions the parser undoes, in which base.
 */
module NumberRoundTrip {
  import opened Numerals
  import opened Strtoull

  /** `t` consists of `a` spaces, a sign up to `b`, a prefix up to `c`, zeros up to `d`, the digit
      string up to `e` and spaces up to the end. */
  ghost predicate Laid(t: string, a: nat, b: nat, c: nat, d: nat, e: nat, sign: string, prefix: string, digits: string) {
    && a <= b <= c <= d <= e <= |t|
    && (forall i | 0 <= i < a :: t[i] == ' ')
    && t[a..b] == sign && t[b..c] == prefix
    && (forall i | c <= i < d :: t[i] == '0')
    && t[d..e] == digits
    && (forall i | e <= i < |t| :: t[i] == ' ')
  }

  lemma Joined(lead: string, sign: string, prefix: string, zeros: string, digits: string, trail: string)
    requires (forall i | 0 <= i < |lead| :: lead[i] == ' ') && (forall i | 0 <= i < |trail| :: trail[i] == ' ')
    requires forall i | 0 <= i < |zeros| :: zeros[i] == '0'
    ensures var a := |lead|;
            var b := a + |sign|;
            var c := b + |prefix|;
            var d := c + |zeros|;
            Laid(lead + sign + prefix + zeros + digits + trail, a, b, c, d, d + |digits|, sign, prefix, digits)
  {
  }

  /** Positions in the output of a conversion. */
  lemma Layout(num: u64, negative: bool, f: Spec) returns (a: nat, b: nat, c: nat, d: nat, e: nat)
    requires f.Valid()
    ensures Laid(Formatted(num, negative, f), a, b, c, d, e, Sign(negative, f), Prefix(num, f), Digits(num, f.radix, f.capital))
    ensures b == a + |Sign(negative, f)| && c == b + |Prefix(num, f)| && d == c + Zeros(num, negative, f)
    ensures e == d + |Digits(num, f.radix, f.capital)|
    ensures a == Lead(num, negative, f) && |Formatted(num, negative, f)| == e + Trail(num, negative, f)
  {
    var lead, zeros, trail := Repeat(' ', Lead(num, negative, f)), Repeat('0', Zeros(num, negative, f)), Repeat(' ', Trail(num, negative, f));
    var sign, prefix, digits := Sign(negative, f), Prefix(num, f), Digits(num, f.radix, f.capital);
    Joined(lead, sign, prefix, zeros, digits, trail);
    a := |lead|;
    b := a + |sign|;
    c := b + |prefix|;
    d := c + |zeros|;
    e := d + |digits|;
  }

  function Larger(a: int, b: int): int { if a > b then a else b }

  /** The shape of the output, from the flags alone: spaces up to `a`, a sign up to `b`, a prefix up to
      `c`, digits up to `e` of which those up to `d` are zeros of padding, and spaces to the end. */
  lemma OutputShape(num: u64, negative: bool, f: Spec) returns (a: nat, b: nat, c: nat, d: nat, e: nat, sign: string, prefix: string)
    requires f.Valid()
    ensures Laid(Formatted(num, negative, f), a, b, c, d, e, sign, prefix, Digits(num, f.radix, f.capital))
    // the sign follows the flags
    ensures |sign| <= 1 && (sign == "-" <==> f.signed && negative)
    ensures sign == "+" <==> f.signed && !negative && f.plus
    ensures sign == " " <==> f.signed && !negative && !f.plus && f.space
    // and so does the prefix
    ensures prefix == "0x" <==> f.alternate && f.radix == 16 && num != 0 && !f.capital
    ensures prefix == "0X" <==> f.alternate && f.radix == 16 && num != 0 && f.capital
    ensures prefix != "0x" && prefix != "0X" ==> prefix == ""
    // the output is as wide as asked for, or as what has to be shown
    ensures |Formatted(num, negative, f)| >= f.width
    // spaces stand only in front when right justified, only behind when left justified, and only up
    // to the width
    ensures a > 0 ==> !f.leftJustify && !(f.zeroPad && f.defaultPrecision) && |Formatted(num, negative, f)| == f.width
    ensures e < |Formatted(num, negative, f)| ==> f.leftJustify && |Formatted(num, negative, f)| == f.width
    // zeros make up the precision, or the zero of the octal form, or the width
    ensures var least := Larger(f.precision - (e - d), if f.alternate && f.radix == 8 && f.precision <= e - d then 1 else 0);
            d - c >= least && (d - c > least ==>
              !f.leftJustify && f.zeroPad && f.defaultPrecision && |Formatted(num, negative, f)| == f.width)
  {
    a, b, c, d, e := Layout(num, negative, f);
    sign, prefix := Sign(negative, f), Prefix(num, f);
    Spent(num, negative, f);
  }

  /** How the padding is spent. */
  lemma Spent(num: u64, negative: bool, f: Spec)
    requires f.Valid()
    ensures var body, least := BodyLength(num, negative, f), MinZeros(num, f);
            var all := Lead(num, negative, f) + (body - least) + Zeros(num, negative, f) + Trail(num, negative, f);
            && all == Larger(f.width, body) && Zeros(num, negative, f) >= least
            && (Lead(num, negative, f) > 0 ==> !f.leftJustify && !(f.zeroPad && f.defaultPrecision) && all == f.width)
            && (Trail(num, negative, f) > 0 ==> f.leftJustify && all == f.width)
            && (Zeros(num, negative, f) > least ==> !f.leftJustify && f.zeroPad && f.defaultPrecision && all == f.width)
    ensures var n := |Digits(num, f.radix, f.capital)|;
            MinZeros(num, f) == Larger(f.precision - n, if f.alternate && f.radix == 8 && f.precision <= n then 1 else 0)
  {
  }

  /** For instance: 255 as `%#6X` and as `%-4x`. */
  lemma SampleRight(f: Spec)
    requires f == Spec(false, false, false, true, false, true, false, 16, 6, 1, true)
    ensures Formatted(255, false, f) == "  0XFF"
  {
    TwoFiftyFive();
    assert Lead(255, false, f) == 2 && Trail(255, false, f) == 0 && Zeros(255, false, f) == 0;
  }

  lemma SampleLeft(f: Spec)
    requires f == Spec(true, false, false, false, false, false, false, 16, 4, 1, true)
    ensures Formatted(255, false, f) == "ff  "
  {
    TwoFiftyFive();
    assert Lead(255, false, f) == 0 && Trail(255, false, f) == 2 && Zeros(255, false, f) == 0;
  }

  // ---- the scanning functions stop where they should ----

  lemma {:induction false} SpacesEnd(s: string, i: nat, k: nat)
    requires i <= k <= |s| && !IsSpace(At(s, k)) && forall j | i <= j < k :: IsSpace(s[j])
    ensures SkipSpaces(s, i) == k
    decreases k - i
  {
    if i < k { SpacesEnd(s, i + 1, k); }
  }

  lemma {:induction false} DigitsEnd(s: string, i: nat, k: nat, base: nat)
    requires i <= k <= |s| && !IsDigitOf(At(s, k), base) && forall j | i <= j < k :: IsDigitOf(s[j], base)
    ensures RunEnd(s, i, base) == k
    decreases k - i
  {
    if i < k { DigitsEnd(s, i + 1, k, base); }
  }

  /** Leading zeros do not count. */
  lemma {:induction false} ZerosThenDigits(z: string, s: string, base: nat)
    requires forall i | 0 <= i < |z| :: z[i] == '0'
    ensures Value(0, z + s, base) == Value(0, s, base)
  {
    if z == "" {
      assert z + s == s;
    } else {
      ZerosThenDigits(z[1..], s, base);
      assert (z + s)[1..] == z[1..] + s;
      assert 0 * base == 0;
    }
  }

  /** The digits between `from` and `e`, some of them leading zeros, read as `num` in their radix. */
  lemma RunReads(t: string, from: nat, d: nat, e: nat, num: nat, radix: nat, capital: bool)
    requires 2 <= radix <= 36 && from <= d <= e <= |t|
    requires (forall i | from <= i < d :: t[i] == '0') && t[d..e] == Digits(num, radix, capital)
    requires e == |t| || t[e] == ' '
    ensures RunEnd(t, from, radix) == e && Value(0, t[from..e], radix) == num
  {
    var digits := Digits(num, radix, capital);
    forall j | from <= j < e ensures IsDigitOf(t[j], radix) {
      if j >= d { assert t[j] == digits[j - d]; }
    }
    DigitsEnd(t, from, e, radix);
    ZerosThenDigits(t[from..d], digits, radix);
    assert t[from..e] == t[from..d] + digits;
    ValueOfDigits(num, radix, capital);
  }

  // ---- decimal ----

  /** The magnitude printf stores for a signed argument; the minimum maps to itself. */
  function Magnitude(n: int): u64
    requires -0x8000_0000_0000_0000 <= n <= 0x7FFF_FFFF_FFFF_FFFF
  {
    if n < 0 then -n else n
  }

  /** A 64-bit result taken as signed. */
  function AsSigned(v: u64): int { if v > 0x7FFF_FFFF_FFFF_FFFF then v - WORD64 else v }

  /** Where the sign ends and whether it is a minus. */
  lemma DecimalHead(t: string, a: nat, b: nat, d: nat, e: nat, sign: string, digits: string)
    requires Laid(t, a, b, b, d, e, sign, "", digits) && (sign == "" || sign == "-" || sign == "+" || sign == " ")
    requires b < e ==> IsAlnum(t[b])
    ensures SignEnd(t) == (if b < e || sign == "-" || sign == "+" then b else |t|)
    ensures IsNegative(t) == (sign == "-")
  {
    if sign == "-" || sign == "+" {
      assert t[a] == sign[0];
      SpacesEnd(t, 0, a);
    } else {
      if sign == " " { assert t[a] == sign[0]; }
      if b < e { SpacesEnd(t, 0, b); } else { SpacesEnd(t, 0, |t|); }
    }
  }

  lemma DecimalReads(t: string, a: nat, b: nat, d: nat, e: nat, sign: string, num: u64, capital: bool)
    requires Laid(t, a, b, b, d, e, sign, "", Digits(num, 10, capital))
    requires sign == "" || sign == "-" || sign == "+" || sign == " "
    ensures Parsed(t, 10) == if sign == "-" then Negate(num) else num
  {
    FirstIsDigit(t, b, d, e, Digits(num, 10, capital));
    DecimalHead(t, a, b, d, e, sign, Digits(num, 10, capital));
    if SignEnd(t) == b {
      RunReads(t, b, d, e, num, 10, capital);
      DecimalValue(t, b, e, num);
    } else {
      assert t[d..e] == "" && t[|t|..|t|] == "";
      DecimalValue(t, |t|, |t|, num);
    }
  }

  lemma FirstIsDigit(t: string, b: nat, d: nat, e: nat, digits: string)
    requires b <= d <= e <= |t| && (forall i | b <= i < d :: t[i] == '0') && t[d..e] == digits
    requires forall i | 0 <= i < |digits| :: IsAlnum(digits[i])
    ensures b < e ==> IsAlnum(t[b])
  {
    if b == d < e { assert t[b] == digits[0]; }
  }

  /** The value of a decimal string follows from its run of digits. */
  lemma DecimalValue(t: string, from: nat, e: nat, num: u64)
    requires from <= e <= |t| && SignEnd(t) == from && RunEnd(t, from, 10) == e && Value(0, t[from..e], 10) == num
    ensures Parsed(t, 10) == if IsNegative(t) then Negate(num) else num
  {
    assert HeadOf(t, 10) == Head(from, 10, false);
  }

  /** %lld: for every 64-bit number and every mix of flags, width and precision, reading the output
      in base 10 gives the number back. */
  lemma DecimalRoundTrip(n: int, f: Spec)
    requires -0x8000_0000_0000_0000 <= n <= 0x7FFF_FFFF_FFFF_FFFF && f.Valid() && f.signed
    ensures AsSigned(Parsed(Formatted(Magnitude(n), n < 0, f), 10)) == n
  {
    var num, negative := Magnitude(n), n < 0;
    var a, b, c, d, e := Layout(num, negative, f);
    DecimalReads(Formatted(num, negative, f), a, b, d, e, Sign(negative, f), num, f.capital);
  }

  // ---- octal and hexadecimal ----

  /** An unsigned conversion starts right after its leading spaces. */
  lemma UnsignedStart(t: string, a: nat, e: nat)
    requires a <= e <= |t| && (forall i | 0 <= i < a :: t[i] == ' ') && (forall i | e <= i < |t| :: t[i] == ' ')
    requires a < e ==> IsAlnum(t[a])
    ensures SignEnd(t) == (if a < e then a else |t|) && !IsNegative(t)
  {
    if a < e { SpacesEnd(t, 0, a); } else { SpacesEnd(t, 0, |t|); }
  }

  /** Zeros and digits without a prefix: a leading zero makes the parser read octal. */
  lemma PlainHead(t: string, a: nat, d: nat, e: nat, num: u64, radix: nat, capital: bool, base: nat)
    requires (radix == 8 || radix == 16) && Prefixable(base)
    requires Laid(t, a, a, a, d, e, "", "", Digits(num, radix, capital))
    ensures !IsNegative(t)
    ensures HeadOf(t, base) == if a < d then Head(a + 1, 8, true)
                               else Head(if a < e then a else |t|, if base == 0 then 10 else base, false)
  {
    var digits := Digits(num, radix, capital);
    if a < d {
      assert t[a] == '0';
      UnsignedStart(t, a, e);
      NotX(t, a + 1, d, e, digits, radix);
    } else if d < e {
      FirstDigit(num, radix, capital);
      assert t[a] == digits[0];
      UnsignedStart(t, a, e);
    } else {
      UnsignedStart(t, a, e);
    }
  }

  lemma NotX(t: string, i: nat, d: nat, e: nat, digits: string, radix: nat)
    requires i <= e <= |t| && d <= e && radix <= 16
    requires (forall k | i <= k < d :: t[k] == '0') && t[d..e] == digits && forall k | e <= k < |t| :: t[k] == ' '
    requires forall k | 0 <= k < |digits| :: DigitValue(digits[k]) < radix
    ensures !IsX(At(t, i)) && SkipX(t, i) == i
  {
    if d <= i < e { assert t[i] == digits[i - d]; }
  }

  /** Nothing but spaces reads as zero. */
  lemma EmptyReads(t: string, base: nat)
    requires HeadOf(t, base).at == |t| && !IsNegative(t)
    ensures Parsed(t, base) == 0
  {
    assert t[|t|..|t|] == "";
  }

  lemma HeadReads(t: string, from: nat, d: nat, e: nat, num: u64, radix: nat, capital: bool, base: nat)
    requires 2 <= radix <= 36 && from <= d <= e <= |t|
    requires (forall i | from <= i < d :: t[i] == '0') && t[d..e] == Digits(num, radix, capital) && (e == |t| || t[e] == ' ')
    requires HeadOf(t, base).at == from && HeadOf(t, base).base == radix && !IsNegative(t)
    ensures Parsed(t, base) == num
  {
    RunReads(t, from, d, e, num, radix, capital);
  }

  lemma OctalReads(t: string, a: nat, d: nat, e: nat, num: u64, capital: bool, base: nat)
    requires Laid(t, a, a, a, d, e, "", "", Digits(num, 8, capital)) && (base == 8 || (base == 0 && a < d))
    ensures Parsed(t, base) == num
  {
    PlainHead(t, a, d, e, num, 8, capital, base);
    if a < d {
      HeadReads(t, a + 1, d, e, num, 8, capital, base);
    } else if a < e {
      HeadReads(t, a, d, e, num, 8, capital, base);
    } else {
      assert t[d..e] == "";
      EmptyReads(t, base);
    }
  }

  /** %llo in base 8, and %#llo in base 0: always read back. */
  lemma OctalRoundTrip(num: u64, f: Spec, base: nat)
    requires f.Valid() && f.radix == 8 && (base == 8 || (base == 0 && f.alternate))
    ensures Parsed(Formatted(num, false, f), base) == num
  {
    var a, b, c, d, e := Layout(num, false, f);
    OctalReads(Formatted(num, false, f), a, d, e, num, f.capital, base);
  }

  /** Any part of a hexadecimal numeral read as octal is at most the number. */
  lemma {:induction false} OctalAtMost(n: nat, capital: bool, j: nat)
    requires j <= |Digits(n, 16, capital)|
    ensures Value(0, Digits(n, 16, capital)[..j], 8) <= n
    decreases n
  {
    var s := Digits(n, 16, capital);
    if n > 0 && j > 0 {
      Shrinks(n, 16);
      var q, c := Digits(n / 16, 16, capital), DigitChar(n % 16, capital);
      if j == |s| {
        assert s[..j] == q + [c] && q[..|q|] == q;
        ValueAppend(0, q, c, 8);
        OctalAtMost(n / 16, capital, |q|);
      } else {
        assert s[..j] == q[..j];
        OctalAtMost(n / 16, capital, j);
      }
    }
  }

  /** From 8 on it is less, as long as only digits below 8 are taken. */
  lemma OctalLess(n: nat, capital: bool, j: nat)
    requires n >= 8 && j <= |Digits(n, 16, capital)|
    requires forall i | 0 <= i < j :: DigitValue(Digits(n, 16, capital)[i]) < 8
    ensures Value(0, Digits(n, 16, capital)[..j], 8) < n
  {
    var s := Digits(n, 16, capital);
    Shrinks(n, 16);
    var q, c := Digits(n / 16, 16, capital), DigitChar(n % 16, capital);
    if j == |s| {
      assert s[..j] == q + [c] && q[..|q|] == q && s[|s| - 1] == c;
      ValueAppend(0, q, c, 8);
      OctalAtMost(n / 16, capital, |q|);
    } else {
      assert s[..j] == q[..j];
      OctalAtMost(n / 16, capital, j);
    }
  }

  lemma SmallHex(num: nat, capital: bool)
    requires 0 < num < 8
    ensures Digits(num, 16, capital) == [DigitChar(num, capital)] && Value(0, Digits(num, 16, capital), 8) == num
  {
    Shrinks(num, 16);
    assert num / 16 == 0 && num % 16 == num;
    assert Digits(0, 16, capital) == "";
    var s := [DigitChar(num, capital)];
    assert s[1..] == "";
  }

  /** A hexadecimal numeral behind a zero, read as octal: right only below 8. */
  lemma OctalReading(t: string, from: nat, d: nat, e: nat, num: u64, capital: bool)
    requires from <= d <= e <= |t| && (forall i | from <= i < d :: t[i] == '0')
    requires t[d..e] == Digits(num, 16, capital) && (e == |t| || t[e] == ' ')
    ensures Value(0, t[from..RunEnd(t, from, 8)], 8) == num <==> num < 8
  {
    var digits, r := Digits(num, 16, capital), RunEnd(t, from, 8);
    RunInside(t, from, d, e);
    var low := t[d..r];
    assert low == digits[..r - d];
    assert t[from..r] == t[from..d] + low;
    ZerosThenDigits(t[from..d], low, 8);
    OctalPart(t, from, d, e, num, capital);
  }

  lemma OctalPart(t: string, from: nat, d: nat, e: nat, num: u64, capital: bool)
    requires from <= d <= e <= |t| && (forall i | from <= i < d :: t[i] == '0')
    requires t[d..e] == Digits(num, 16, capital) && (e == |t| || t[e] == ' ')
    requires d <= RunEnd(t, from, 8) <= e
    ensures Value(0, Digits(num, 16, capital)[..RunEnd(t, from, 8) - d], 8) == num <==> num < 8
  {
    if num >= 8 {
      OctalPartLarge(t, from, d, RunEnd(t, from, 8), num, capital);
    } else if num > 0 {
      OctalPartSmall(t, from, d, e, num, capital);
    }
  }

  lemma OctalPartLarge(t: string, from: nat, d: nat, r: nat, num: u64, capital: bool)
    requires num >= 8 && from <= d <= r <= |t| && r - d <= |Digits(num, 16, capital)|
    requires t[d..r] == Digits(num, 16, capital)[..r - d] && forall i | from <= i < r :: IsDigitOf(t[i], 8)
    ensures Value(0, Digits(num, 16, capital)[..r - d], 8) < num
  {
    var digits := Digits(num, 16, capital);
    forall i | 0 <= i < r - d ensures DigitValue(digits[i]) < 8 {
      assert digits[..r - d][i] == t[d..r][i];
    }
    OctalLess(num, capital, r - d);
  }

  lemma OctalPartSmall(t: string, from: nat, d: nat, e: nat, num: u64, capital: bool)
    requires 0 < num < 8 && from <= d <= e <= |t| && (forall i | from <= i < d :: t[i] == '0')
    requires t[d..e] == Digits(num, 16, capital) && (e == |t| || t[e] == ' ')
    ensures RunEnd(t, from, 8) == e && Value(0, Digits(num, 16, capital), 8) == num
    ensures Digits(num, 16, capital)[..e - d] == Digits(num, 16, capital)
  {
    SmallHex(num, capital);
    assert t[d] == Digits(num, 16, capital)[0];
    DigitsEnd(t, from, e, 8);
  }

  lemma RunInside(t: string, from: nat, d: nat, e: nat)
    requires from <= d <= e <= |t| && (forall i | from <= i < d :: t[i] == '0') && (e == |t| || t[e] == ' ')
    ensures d <= RunEnd(t, from, 8) <= e
  {
    var r := RunEnd(t, from, 8);
    assert IsDigitOf('0', 8) && !IsDigitOf(' ', 8);
    assert forall i | from <= i < d :: IsDigitOf(t[i], 8);
  }

  // ---- hexadecimal ----

  /** A 0x prefix selects base 16 in base 16 and in base 0. */
  lemma PrefixedHead(t: string, a: nat, d: nat, e: nat, prefix: string, num: u64, capital: bool, base: nat)
    requires Laid(t, a, a, a + 2, d, e, "", prefix, Digits(num, 16, capital)) && (prefix == "0x" || prefix == "0X")
    requires base == 16 || base == 0
    ensures HeadOf(t, base) == Head(a + 2, 16, true) && !IsNegative(t)
  {
    assert t[a] == prefix[0] && t[a + 1] == prefix[1];
    UnsignedStart(t, a, e);
    NotX(t, a + 2, d, e, Digits(num, 16, capital), 16);
    assert SkipX(t, a + 1) == SkipX(t, a + 2);
  }

  lemma ParsedValue(t: string, base: nat)
    requires !IsNegative(t)
    ensures var h := HeadOf(t, base);
            var v := Value(0, t[h.at..RunEnd(t, h.at, h.base)], h.base);
            v < WORD64 ==> Parsed(t, base) == v
  {
  }

  lemma HexReads(t: string, a: nat, d: nat, e: nat, num: u64, capital: bool)
    requires Laid(t, a, a, a, d, e, "", "", Digits(num, 16, capital))
    ensures Parsed(t, 16) == num <==> d == a || num < 8
  {
    PlainHead(t, a, d, e, num, 16, capital, 16);
    if a < d {
      OctalReading(t, a + 1, d, e, num, capital);
      ReadBelow(t, a + 1, d, e, num, capital);
      ParsedValue(t, 16);
    } else if a < e {
      HeadReads(t, a, d, e, num, 16, capital, 16);
    } else {
      assert t[d..e] == "";
      EmptyReads(t, 16);
    }
  }

  /** The octal reading of a 64-bit hexadecimal numeral does not wrap. */
  lemma ReadBelow(t: string, from: nat, d: nat, e: nat, num: u64, capital: bool)
    requires from <= d <= e <= |t| && (forall i | from <= i < d :: t[i] == '0')
    requires t[d..e] == Digits(num, 16, capital) && (e == |t| || t[e] == ' ')
    ensures Value(0, t[from..RunEnd(t, from, 8)], 8) < WORD64
  {
    var digits, r := Digits(num, 16, capital), RunEnd(t, from, 8);
    RunInside(t, from, d, e);
    assert t[d..r] == digits[..r - d];
    assert t[from..r] == t[from..d] + t[d..r];
    ZerosThenDigits(t[from..d], t[d..r], 8);
    OctalAtMost(num, capital, r - d);
  }

  /** %llx in base 16 is read back exactly when it has a prefix, or no leading zero, or is below 8:
      a leading zero without x makes the parser read octal. */
  lemma HexRoundTrip(num: u64, f: Spec)
    requires f.Valid() && f.radix == 16
    ensures Parsed(Formatted(num, false, f), 16) == num
            <==> (f.alternate && num != 0) || Zeros(num, false, f) == 0 || num < 8
  {
    var t := Formatted(num, false, f);
    var a, b, c, d, e := Layout(num, false, f);
    if f.alternate && num != 0 {
      PrefixedHead(t, a, d, e, Prefix(num, f), num, f.capital, 16);
      HeadReads(t, a + 2, d, e, num, 16, f.capital, 16);
    } else {
      HexReads(t, a, d, e, num, f.capital);
    }
  }

  /** Unpadded %llx in base 16 is always read back. */
  lemma PlainHexRoundTrip(num: u64, f: Spec)
    requires f.Valid() && f.radix == 16 && f.width == 0 && f.defaultPrecision
    ensures Parsed(Formatted(num, false, f), 16) == num
  {
    HexRoundTrip(num, f);
    if num != 0 { FirstDigit(num, 16, f.capital); }
  }

  /** 0x10 printed with %04llx is "0010", which is read in base 16 as 8. */
  lemma PaddedHexIsLost()
    ensures var f := Spec(false, false, false, false, true, false, false, 16, 4, 1, true);
            f.Valid() && Formatted(0x10, false, f) == "0010" && Parsed("0010", 16) == 8
  {
    var f := Spec(false, false, false, false, true, false, false, 16, 4, 1, true);
    SixteenDigits();
    assert Zeros(0x10, false, f) == 2 && Lead(0x10, false, f) == 0 && Trail(0x10, false, f) == 0;
    assert Formatted(0x10, false, f) == "0010";
    ReadsEight();
  }

  lemma ReadsEight()
    ensures Parsed("0010", 16) == 8
  {
    var t := "0010";
    assert SkipSpaces(t, 0) == 0 && SkipX(t, 1) == 1;
    assert HeadOf(t, 16) == Head(1, 8, true);
    DigitsEnd(t, 1, 4, 8);
    assert t[1..4] == "010" && t[1..] == "010";
    assert "010"[1..] == "10" && "10"[1..] == "0" && "0"[1..] == "";
    assert Value(0, "010", 8) == Value(0, "10", 8) == Value(1, "0", 8) == Value(8, "", 8) == 8;
  }

  lemma SixteenDigits()
    ensures Digits(0x10, 16, false) == "10"
  {
    Shrinks(0x10, 16);
    Shrinks(1, 16);
    assert 0x10 / 16 == 1 && 1 / 16 == 0;
    assert Digits(0, 16, false) == "";
    assert Digits(1, 16, false) == "1";
  }

  /** %#llx in base 0: always read back. */
  lemma AlternateHexRoundTrip(num: u64, f: Spec)
    requires f.Valid() && f.radix == 16 && f.alternate
    ensures Parsed(Formatted(num, false, f), 0) == num
  {
    var t := Formatted(num, false, f);
    var a, b, c, d, e := Layout(num, false, f);
    if num != 0 {
      PrefixedHead(t, a, d, e, Prefix(num, f), num, f.capital, 0);
      HeadReads(t, a + 2, d, e, num, 16, f.capital, 0);
    } else {
      PlainHead(t, a, d, e, 0, 16, f.capital, 0);
      if a < d {
        OctalReading(t, a + 1, d, e, 0, f.capital);
      } else {
        assert t[d..e] == "";
        EmptyReads(t, 0);
      }
    }
  }
}
