/**
 The numbers that _strtoull accepts, as a grammar: white space, a sign, a prefix, digits.
 */
module NumberGrammar {
  import opened Numerals
  import opened Strtoull
  import opened NumberRoundTrip

  const SMALL := "0123456789abcdefghijklmnopqrstuvwxyz"
  const CAPITAL := "0123456789ABCDEFGHIJKLMNOPQRSTUVWXYZ"

  /** The digits of every base, in both cases: what is written, and what is read. */
  lemma DigitAlphabet(d: nat)
    requires d < 36
    ensures |SMALL| == |CAPITAL| == 36
    ensures DigitChar(d, false) == SMALL[d] && DigitChar(d, true) == CAPITAL[d]
    ensures DigitValue(SMALL[d]) == d == DigitValue(CAPITAL[d])
  {
  }

  /** Space, tab, line feed, vertical tab, form feed, carriage return. */
  predicate White(c: char) {
    c == ' ' || c == '\t' || c == '\n' || c == '\U{0B}' || c == '\U{0C}' || c == '\r'
  }

  ghost predicate Front(ws: string, sign: string, tail: string) {
    && (forall i | 0 <= i < |ws| :: White(ws[i])) && (sign == "" || sign == "+" || sign == "-")
    && (sign == "" ==> tail == "" || (!White(tail[0]) && tail[0] != '+' && tail[0] != '-'))
  }

  /** White space is skipped and one sign is taken. */
  lemma FrontRead(s: string, ws: string, sign: string, tail: string)
    requires Front(ws, sign, tail) && s == ws + sign + tail
    ensures SignEnd(s) == |ws| + |sign| && (IsNegative(s) <==> sign == "-")
    ensures s[|ws| + |sign|..] == tail
  {
    assert forall i | 0 <= i < |ws| :: s[i] == ws[i];
    if sign != "" {
      assert s[|ws|] == sign[0];
    } else if tail != "" {
      assert s[|ws|] == tail[0];
    }
    SpacesEnd(s, 0, |ws|);
  }

  ghost predicate AllDigits(digits: string, base: nat) { forall i | 0 <= i < |digits| :: DigitValue(digits[i]) < base }

  ghost predicate Stops(rest: string, base: nat) { rest == "" || DigitValue(rest[0]) >= base }

  /** The digit string and where it stops. */
  ghost predicate Run(digits: string, rest: string, base: nat) {
    2 <= base <= 36 && AllDigits(digits, base) && Stops(rest, base)
  }

  /** What `v` is in 64 bits, with its sign. */
  function Wrapped(v: nat, negative: bool): u64 { (if negative then 0 - v else v as int) % WORD64 }

  lemma NegateWraps(v: nat)
    ensures Negate(v % WORD64) == Wrapped(v, true)
  {
    var q, r := v / WORD64, v % WORD64;
    assert v == q * WORD64 + r;
    if r == 0 {
      assert 0 - v == (0 - q) * WORD64;
    } else {
      assert 0 - v == (0 - q - 1) * WORD64 + (WORD64 - r);
    }
  }

  lemma RunRead(s: string, from: nat, digits: string, rest: string, base: nat)
    requires Run(digits, rest, base) && from <= |s| && s[from..] == digits + rest
    ensures RunEnd(s, from, base) == from + |digits| <= |s| && s[from..from + |digits|] == digits
  {
    var e := from + |digits|;
    assert forall i | from <= i < |s| :: s[i] == s[from..][i - from];
    if rest != "" { assert s[e] == rest[0]; }
    DigitsEnd(s, from, e, base);
  }

  /** The digits behind the head of a number decide its value and its end. */
  lemma HeadThenDigits(s: string, h: Head, digits: string, rest: string, base: nat)
    requires HeadOf(s, base) == h && h.at <= |s| && Run(digits, rest, h.base) && s[h.at..] == digits + rest
    ensures Parsed(s, base) == Wrapped(Value(0, digits, h.base), IsNegative(s))
    ensures digits != "" ==> ParsedEnd(s, base) == h.at + |digits|
    ensures digits == "" ==> ParsedEnd(s, base) == if !h.zero then 0 else if h.base == 16 then h.at - 1 else h.at
  {
    RunRead(s, h.at, digits, rest, h.base);
    NegateWraps(Value(0, digits, h.base));
  }

  lemma PlainHeadOf(s: string, i: nat, base: nat)
    requires i <= |s| && SignEnd(s) == i && (base == 0 || base == 8 || base == 16 ==> i == |s| || s[i] != '0')
    ensures HeadOf(s, base) == Head(i, if base == 0 then 10 else base, false)
  {
  }

  /** A number without a prefix; base 0 means ten. */
  lemma PlainNumber(s: string, ws: string, sign: string, digits: string, rest: string, base: nat)
    requires s == ws + sign + (digits + rest) && Front(ws, sign, digits + rest) && ValidBase(base)
    requires digits != "" && Run(digits, rest, if base == 0 then 10 else base)
    requires base == 0 || base == 8 || base == 16 ==> digits[0] != '0'
    ensures Parsed(s, base) == Wrapped(Value(0, digits, if base == 0 then 10 else base), sign == "-")
    ensures ParsedEnd(s, base) == |ws| + |sign| + |digits|
  {
    var i, h := |ws| + |sign|, Head(|ws| + |sign|, if base == 0 then 10 else base, false);
    FrontRead(s, ws, sign, digits + rest);
    assert s[i] == s[i..][0] == digits[0];
    PlainHeadOf(s, i, base);
    HeadThenDigits(s, h, digits, rest, base);
  }

  ghost predicate NoX(tail: string) { tail == "" || (tail[0] != 'x' && tail[0] != 'X') }

  /** A zero and any number of x. */
  ghost predicate IsPrefix(prefix: string) {
    prefix != "" && prefix[0] == '0' && forall i | 0 < i < |prefix| :: prefix[i] == 'x' || prefix[i] == 'X'
  }

  function PrefixBase(prefix: string): nat { if |prefix| == 1 then 8 else 16 }

  lemma {:induction false} XsEnd(s: string, i: nat, k: nat)
    requires i <= k <= |s| && !IsX(At(s, k)) && forall j | i <= j < k :: IsX(s[j])
    ensures SkipX(s, i) == k
    decreases k - i
  {
    if i < k { XsEnd(s, i + 1, k); }
  }

  lemma PrefixHead(s: string, i: nat, prefix: string, tail: string, base: nat)
    requires (base == 0 || base == 8 || base == 16) && IsPrefix(prefix) && NoX(tail)
    requires i <= |s| && SignEnd(s) == i && s[i..] == prefix + tail
    ensures i + |prefix| <= |s| && s[i + |prefix|..] == tail
    ensures HeadOf(s, base) == Head(i + |prefix|, PrefixBase(prefix), true)
  {
    var j := i + |prefix|;
    assert s[i] == s[i..][0] == '0';
    forall k | i < k < j ensures IsX(s[k]) { assert s[k] == s[i..][k - i] == prefix[k - i]; }
    if tail != "" { assert s[j] == s[i..][|prefix|] == tail[0]; }
    XsEnd(s, i + 1, j);
  }

  /** A number with a prefix, which selects the base when the base asked for is 0, 8 or 16: `0` octal, `0x`
      with one x or more, small or capital, hexadecimal. Without digits the end is behind the zero, or at
      the last x. */
  lemma PrefixedNumber(s: string, ws: string, sign: string, prefix: string, digits: string, rest: string, base: nat)
    requires s == ws + sign + (prefix + (digits + rest)) && Front(ws, sign, prefix + (digits + rest))
    requires (base == 0 || base == 8 || base == 16) && IsPrefix(prefix) && NoX(digits + rest)
    requires Run(digits, rest, PrefixBase(prefix))
    ensures Parsed(s, base) == Wrapped(Value(0, digits, if |prefix| == 1 then 8 else 16), sign == "-")
    ensures ParsedEnd(s, base) == |ws| + |sign| + |prefix| + if digits == "" && |prefix| > 1 then -1 else |digits|
  {
    FrontRead(s, ws, sign, prefix + (digits + rest));
    PrefixHead(s, |ws| + |sign|, prefix, digits + rest, base);
    HeadThenDigits(s, Head(|ws| + |sign| + |prefix|, PrefixBase(prefix), true), digits, rest, base);
  }

  /** No digit: the value is 0 and nothing is taken, not even white space or the sign. */
  lemma NoNumber(s: string, ws: string, sign: string, rest: string, base: nat)
    requires s == ws + sign + rest && Front(ws, sign, rest) && ValidBase(base) && Stops(rest, if base == 0 then 10 else base)
    ensures Parsed(s, base) == 0 && ParsedEnd(s, base) == 0
  {
    var i, h := |ws| + |sign|, Head(|ws| + |sign|, if base == 0 then 10 else base, false);
    FrontRead(s, ws, sign, rest);
    if rest != "" { assert s[i] == s[i..][0] == rest[0]; }
    PlainHeadOf(s, i, base);
    assert s[i..] == "" + rest;
    HeadThenDigits(s, h, "", rest, base);
  }

  lemma TwoDigits(c: char, d: char, base: nat)
    ensures Value(0, [c, d], base) == DigitValue(c) * base + DigitValue(d)
  {
    assert [c] + [d] == [c, d];
    ValueAppend(0, [c], d, base);
    assert [c][1..] == "";
    assert Value(0, [c], base) == DigitValue(c);
  }

  /** For instance, in base 0: hexadecimal behind white space and a sign. */
  lemma SampleHex(s: string)
    requires s == "\t\n-0x1F;"
    ensures Parsed(s, 0) == 0xFFFF_FFFF_FFFF_FFE1 && ParsedEnd(s, 0) == 7
  {
    TwoDigits('1', 'F', 16);
    PrefixedNumber(s, "\t\n", "-", "0x", "1F", ";", 0);
  }

  /** Octal, up to a 9. */
  lemma SampleOctal(s: string)
    requires s == "0179"
    ensures Parsed(s, 0) == 15 && ParsedEnd(s, 0) == 3
  {
    TwoDigits('1', '7', 8);
    PrefixedNumber(s, "", "", "0", "17", "9", 0);
  }

  lemma SampleDecimal(s: string)
    requires s == " +17"
    ensures Parsed(s, 0) == 17 && ParsedEnd(s, 0) == 4
  {
    TwoDigits('1', '7', 10);
    PlainNumber(s, " ", "+", "17", "", 0);
  }
}
