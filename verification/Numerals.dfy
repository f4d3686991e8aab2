/**
 Positional numerals: digit strings, their values, and the numeric conversions of printf.
 */
module Numerals {
  const WORD64 := 0x1_0000_0000_0000_0000

  type u64 = x: int | 0 <= x < 0x1_0000_0000_0000_0000

  // ---- characters ----

  predicate IsDigit(c: char) { '0' <= c <= '9' }
  predicate IsUpper(c: char) { 'A' <= c <= 'Z' }
  predicate IsLower(c: char) { 'a' <= c <= 'z' }
  predicate IsAlnum(c: char) { IsUpper(c) || IsLower(c) || IsDigit(c) }
  predicate IsSpace(c: char) { '\t' <= c <= '\r' || c == ' ' }

  /** Value of a character as a digit: 0-9, then a-z or A-Z from 10 on; 36 for all others. */
  function DigitValue(c: char): (r: nat)
    ensures r <= 36 && (r < 36 <==> IsAlnum(c))
  {
    if IsDigit(c) then c as int - '0' as int
    else if IsUpper(c) then 10 + c as int - 'A' as int
    else if IsLower(c) then 10 + c as int - 'a' as int
    else 36
  }

  function DigitChar(d: nat, capital: bool): (c: char)
    requires d < 36
    ensures IsAlnum(c) && DigitValue(c) == d
    ensures d == 0 <==> c == '0'
    ensures d < 10 <==> IsDigit(c)
    ensures d < 33 ==> c != 'x' && c != 'X'
    ensures if capital then !('a' <= c <= 'z') else !('A' <= c <= 'Z')
  {
    if d < 10 then ('0' as int + d) as char
    else if capital then ('A' as int + d - 10) as char
    else ('a' as int + d - 10) as char
  }

  // ---- digit strings ----

  /** The digits of `n`, most significant first; nothing for zero. */
  function Digits(n: nat, radix: nat, capital: bool): (s: string)
    requires 2 <= radix <= 36
    ensures forall i | 0 <= i < |s| :: IsAlnum(s[i]) && DigitValue(s[i]) < radix
    ensures n == 0 <==> s == ""
    decreases n
  {
    if n == 0 then "" else (Shrinks(n, radix); Digits(n / radix, radix, capital) + [DigitChar(n % radix, capital)])
  }

  lemma Shrinks(n: nat, radix: nat)
    requires n > 0 && radix >= 2
    ensures 0 <= n / radix < n
  {
  }

  /** Value of a digit string read after `acc`. */
  function Value(acc: nat, s: string, base: nat): nat
    decreases |s|
  {
    if s == "" then acc else Value(acc * base + DigitValue(s[0]), s[1..], base)
  }

  lemma {:induction false} ValueAppend(acc: nat, s: string, c: char, base: nat)
    ensures Value(acc, s + [c], base) == Value(acc, s, base) * base + DigitValue(c)
    decreases |s|
  {
    if s == "" {
      assert s + [c] == [c];
      assert [c][1..] == "";
    } else {
      ValueAppend(acc * base + DigitValue(s[0]), s[1..], c, base);
      assert (s + [c])[1..] == s[1..] + [c];
    }
  }

  /** Capital conversions use no small letter, and small ones no capital. */
  lemma {:induction false} DigitsCase(n: nat, radix: nat, capital: bool, i: nat)
    requires 2 <= radix <= 36 && i < |Digits(n, radix, capital)|
    ensures var c := Digits(n, radix, capital)[i];
            if capital then '0' <= c <= '9' || 'A' <= c <= 'Z' else '0' <= c <= '9' || 'a' <= c <= 'z'
  {
    Shrinks(n, radix);
    if i < |Digits(n / radix, radix, capital)| { DigitsCase(n / radix, radix, capital, i); }
  }

  /** 255 in hexadecimal. */
  lemma TwoFiftyFive()
    ensures Digits(255, 16, false) == "ff" && Digits(255, 16, true) == "FF"
  {
    Shrinks(255, 16);
    Shrinks(15, 16);
    assert 255 / 16 == 15 && 15 / 16 == 0;
    assert Digits(0, 16, false) == "" && Digits(0, 16, true) == "";
    assert Digits(15, 16, false) == "f" && Digits(15, 16, true) == "F";
  }

  /** Digits and value are inverse. */
  lemma {:induction false} ValueOfDigits(n: nat, radix: nat, capital: bool)
    requires 2 <= radix <= 36
    ensures Value(0, Digits(n, radix, capital), radix) == n
    decreases n
  {
    if n > 0 {
      var q, r := n / radix, n % radix;
      Shrinks(n, radix);
      ValueOfDigits(q, radix, capital);
      ValueAppend(0, Digits(q, radix, capital), DigitChar(r, capital), radix);
      Recompose(n, radix);
    }
  }

  /** No leading zero. */
  lemma {:induction false} FirstDigit(n: nat, radix: nat, capital: bool)
    requires 2 <= radix <= 36 && n > 0
    ensures Digits(n, radix, capital) != "" && DigitValue(Digits(n, radix, capital)[0]) > 0
    decreases n
  {
    Shrinks(n, radix);
    if n / radix > 0 {
      FirstDigit(n / radix, radix, capital);
    } else {
      SmallRemainder(n, radix);
    }
  }

  lemma Recompose(n: nat, radix: nat)
    requires radix > 0
    ensures n / radix * radix + n % radix == n
  {
  }

  lemma SmallRemainder(n: nat, radix: nat)
    requires radix > 0 && n / radix == 0
    ensures n % radix == n
  {
    assert n == n / radix * radix + n % radix;
  }

  // ---- the number of digits ----

  function Pow2(k: nat): nat { if k == 0 then 1 else 2 * Pow2(k - 1) }

  lemma {:induction false} FewDigits(n: nat, radix: nat, capital: bool, k: nat)
    requires 2 <= radix <= 36 && n < Pow2(k)
    ensures |Digits(n, radix, capital)| <= k
    decreases n
  {
    if n > 0 {
      Shrinks(n, radix);
      HalfAtMost(n, radix);
      FewDigits(n / radix, radix, capital, k - 1);
    }
  }

  lemma HalfAtMost(n: nat, radix: nat)
    requires radix >= 2
    ensures n / radix <= n / 2
  {
    var q := n / radix;
    assert q * radix <= n;
    assert q * 2 <= q * radix;
  }

  lemma {:induction false} Pow2Add(a: nat, b: nat)
    ensures Pow2(a + b) == Pow2(a) * Pow2(b)
  {
    if b > 0 {
      Pow2Add(a, b - 1);
      assert Pow2(a + b) == 2 * Pow2(a + (b - 1));
    }
  }

  lemma Pow2Of64()
    ensures Pow2(64) == WORD64
  {
    assert Pow2(4) == 16;
    Pow2Add(4, 4);
    Pow2Add(8, 8);
    Pow2Add(16, 16);
    Pow2Add(32, 32);
  }

  // ---- printf ----

  /** A parsed numeric conversion specification. */
  datatype Spec = Spec(
    leftJustify: bool, plus: bool, space: bool, alternate: bool, zeroPad: bool, capital: bool, signed: bool,
    radix: nat, width: nat, precision: nat, defaultPrecision: bool)
  {
    predicate Valid() {
      && (radix == 8 || radix == 10 || radix == 16)
      && (defaultPrecision ==> precision == 1) && (signed ==> radix == 10)
    }
  }

  function Repeat(c: char, n: nat): (s: string)
    ensures |s| == n && forall i | 0 <= i < n :: s[i] == c
  {
    seq(n, _ => c)
  }

  function Over(a: nat, b: nat): nat { if a > b then a - b else 0 }

  function Sign(negative: bool, f: Spec): string {
    if !f.signed then "" else if negative then "-" else if f.plus then "+" else if f.space then " " else ""
  }

  function Prefix(num: u64, f: Spec): string {
    if f.alternate && f.radix == 16 && num != 0 then (if f.capital then "0X" else "0x") else ""
  }

  /** Zeros demanded by the precision and by the octal alternate form. */
  function MinZeros(num: u64, f: Spec): nat
    requires f.Valid()
  {
    var z := Over(f.precision, |Digits(num, f.radix, f.capital)|);
    if f.alternate && f.radix == 8 && z == 0 then 1 else z
  }

  function BodyLength(num: u64, negative: bool, f: Spec): nat
    requires f.Valid()
  {
    |Sign(negative, f)| + |Prefix(num, f)| + MinZeros(num, f) + |Digits(num, f.radix, f.capital)|
  }

  /** How the padding up to the width is spent. */
  function Padding(num: u64, negative: bool, f: Spec): nat
    requires f.Valid()
  {
    Over(f.width, BodyLength(num, negative, f))
  }

  predicate PadsWithZeros(f: Spec) { !f.leftJustify && f.zeroPad && f.defaultPrecision }

  function Zeros(num: u64, negative: bool, f: Spec): nat
    requires f.Valid()
  {
    MinZeros(num, f) + if PadsWithZeros(f) then Padding(num, negative, f) else 0
  }

  function Lead(num: u64, negative: bool, f: Spec): nat
    requires f.Valid()
  {
    if !f.leftJustify && !PadsWithZeros(f) then Padding(num, negative, f) else 0
  }

  function Trail(num: u64, negative: bool, f: Spec): nat
    requires f.Valid()
  {
    if f.leftJustify then Padding(num, negative, f) else 0
  }

  /** The characters a numeric conversion produces. */
  function Formatted(num: u64, negative: bool, f: Spec): string
    requires f.Valid()
  {
    Repeat(' ', Lead(num, negative, f)) + Sign(negative, f) + Prefix(num, f)
    + Repeat('0', Zeros(num, negative, f)) + Digits(num, f.radix, f.capital) + Repeat(' ', Trail(num, negative, f))
  }
}
