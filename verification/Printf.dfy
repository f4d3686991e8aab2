/**
 The numeric conversions of _doprintf, as loops over a digit buffer and counters.
 */
module Printf {
  import opened Numerals

  const NUM2STR_BUFSIZ := 64

  lemma OneMoreDigit(num: nat, f: Spec, rest: string)
    requires f.Valid() && num > 0
    ensures 0 <= num / f.radix < num
    ensures Digits(num, f.radix, f.capital) + rest
         == Digits(num / f.radix, f.radix, f.capital) + ([DigitChar(num % f.radix, f.capital)] + rest)
    ensures |Digits(num, f.radix, f.capital)| == |Digits(num / f.radix, f.radix, f.capital)| + 1
  {
    Shrinks(num, f.radix);
  }

  /** The digits of a 64-bit number fit the buffer. */
  lemma DigitsFit(n: u64, f: Spec)
    requires f.Valid()
    ensures |Digits(n, f.radix, f.capital)| <= NUM2STR_BUFSIZ
  {
    Pow2Of64();
    FewDigits(n, f.radix, f.capital, NUM2STR_BUFSIZ);
  }

  /** Fills the buffer from its end with the digits of `num`; returns the index before the first. */
  method FillDigits(buf: array<char>, n: u64, f: Spec) returns (p: int)
    requires buf.Length == NUM2STR_BUFSIZ && f.Valid()
    modifies buf
    ensures -1 <= p < NUM2STR_BUFSIZ && buf[p + 1..] == Digits(n, f.radix, f.capital)
  {
    var num: nat := n;
    p := NUM2STR_BUFSIZ - 1;
    DigitsFit(n, f);
    assert buf[p + 1..] == "";
    ghost var all := Digits(n, f.radix, f.capital);
    while num != 0
      invariant |Digits(num, f.radix, f.capital)| - 1 <= p < NUM2STR_BUFSIZ
      invariant Digits(num, f.radix, f.capital) + buf[p + 1..] == all
      decreases num
    {
      OneMoreDigit(num, f, buf[p + 1..]);
      ghost var rest := buf[p + 1..];
      buf[p] := DigitChar(num % f.radix, f.capital);
      assert buf[p..] == [buf[p]] + rest;
      p, num := p - 1, num / f.radix;
    }
  }

  /** Writes `c` while `width` exceeds `len`. */
  method Pad(out: string, c: char, width: int, len: int) returns (out': string)
    requires len >= 0
    ensures out' == out + Repeat(c, if width > len then width - len else 0)
  {
    out' := out;
    var w := width;
    while w > len
      invariant w == width || len <= w <= width
      invariant out' == out + Repeat(c, width - w)
    {
      w := w - 1;
      out' := out' + [c];
    }
  }

  /** Counts zeros and total length: precision first, then sign, then alternate form. */
  method Measure(num: u64, negative: bool, f: Spec, digitCount: nat) returns (sign: string, numZeros: nat, len: nat)
    requires f.Valid() && digitCount == |Digits(num, f.radix, f.capital)|
    ensures sign == Sign(negative, f) && numZeros == MinZeros(num, f) && len == BodyLength(num, negative, f)
  {
    numZeros, len := 0, digitCount;
    while f.precision > len
      invariant numZeros == len - digitCount && numZeros <= Over(f.precision, digitCount)
    {
      numZeros, len := numZeros + 1, len + 1;
    }
    sign := "";
    if f.signed {
      if negative {
        sign, len := "-", len + 1;
      } else if f.plus {
        sign, len := "+", len + 1;
      } else if f.space {
        sign, len := " ", len + 1;
      }
    }
    if f.alternate {
      if f.radix == 8 && numZeros == 0 {
        len, numZeros := len + 1, numZeros + 1;
      } else if f.radix == 16 && num != 0 {
        len := len + 2;
      }
    }
  }

  /** One numeric conversion: padding, sign, prefix, zeros, digits, padding. */
  method FormatNumber(num: u64, negative: bool, f: Spec) returns (out: string)
    requires f.Valid()
    ensures out == Formatted(num, negative, f)
  {
    var buf := new char[NUM2STR_BUFSIZ];
    var p := FillDigits(buf, num, f);
    var digits := buf[p + 1..];
    var sign, numZeros, len := Measure(num, negative, f, |digits|);
    out, numZeros := LeadIn(f, numZeros, len);
    out := Emit(out, num, f, sign, numZeros, digits);
    if f.leftJustify {
      out := Pad(out, ' ', f.width, len);
    }
  }

  /** Right justification: zeros when they are asked for and no precision is given, else spaces. */
  method LeadIn(f: Spec, least: nat, body: nat) returns (out: string, numZeros: nat)
    ensures var pad := Over(f.width, body);
            && out == Repeat(' ', if !f.leftJustify && !PadsWithZeros(f) then pad else 0)
            && numZeros == least + if PadsWithZeros(f) then pad else 0
  {
    out, numZeros := "", least;
    if !f.leftJustify {
      if f.zeroPad && f.defaultPrecision {
        var len := body;
        while f.width > len
          invariant numZeros + body == least + len && (len == body || len <= f.width)
        {
          numZeros, len := numZeros + 1, len + 1;
        }
      } else {
        out := Pad(out, ' ', f.width, body);
      }
    }
  }

  method Emit(lead: string, num: u64, f: Spec, sign: string, numZeros: nat, digits: string) returns (out: string)
    ensures out == lead + sign + Prefix(num, f) + Repeat('0', numZeros) + digits
  {
    out := lead + sign;
    if f.alternate && f.radix == 16 && num != 0 {
      out := out + ['0'];
      out := out + [if f.capital then 'X' else 'x'];
    }
    assert out == lead + sign + Prefix(num, f);
    out := Pad(out, '0', numZeros, 0);
    out := out + digits;
  }
}
