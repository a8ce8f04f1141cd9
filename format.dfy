/** Decimal formatting as Go's `fmt` does it for integer verbs (`%d`, and
    `%0Nd` with a zero-padded minimum width), together with an independent
    reading of decimal text and the bytewise order Go uses on strings. */
module Format {
  import opened Base

  predicate IsDigit(c: char) { '0' <= c <= '9' }

  predicate AllDigits(s: seq<char>)
  {
    forall i :: 0 <= i < |s| ==> IsDigit(s[i])
  }

  function DigitChar(d: nat): (c: ByteChar)
    requires d < 10
    ensures IsDigit(c)
  {
    ('0' as int + d) as char
  }

  function DigitValue(c: char): (d: nat)
    requires IsDigit(c)
    ensures d < 10
  {
    c as int - '0' as int
  }

  function Pow10(k: nat): (p: nat)
    ensures p >= 1
  {
    if k == 0 then 1 else 10 * Pow10(k - 1)
  }

  /** The canonical decimal digits of `n`: no sign, and no leading zero
      except for `n == 0` itself. */
  function Digits(n: nat): (r: GoString)
    ensures |r| >= 1 && AllDigits(r)
    ensures n > 0 ==> r[0] != '0'
    decreases n
  {
    if n < 10 then [DigitChar(n)] else Digits(n / 10) + [DigitChar(n % 10)]
  }

  function Zeros(k: nat): (r: GoString)
    ensures |r| == k && AllDigits(r)
    ensures forall i :: 0 <= i < k ==> r[i] == '0'
  {
    seq(k, _ => '0')
  }

  /** Left-pads `s` with `'0'` up to `width` characters; never truncates. */
  function PadZeros(s: GoString, width: nat): (r: GoString)
    ensures |r| == if |s| >= width then |s| else width
    ensures r[|r| - |s|..] == s
    ensures |s| >= width ==> r == s
    ensures AllDigits(s) ==> AllDigits(r)
  {
    if |s| >= width then s else Zeros(width - |s|) + s
  }

  /** `fmt.Sprintf("%0<width>d", i)` (and `"%d"` for `width == 0`). Go counts
      the minus sign inside the width, so a negative number gets one zero
      fewer. */
  function FormatInt(i: int, width: nat): (r: GoString)
    ensures |r| >= width && |r| >= 1
    ensures i >= 0 ==> AllDigits(r)
    ensures i < 0 ==> r[0] == '-' && AllDigits(r[1..])
    ensures |r| > width && |r| > 1 ==> r[0] != '0'
  {
    if i < 0 then
      var body := PadZeros(Digits(-i), if width > 0 then width - 1 else 0);
      assert (['-'] + body)[1..] == body;
      ['-'] + body
    else
      PadZeros(Digits(i), width)
  }

  /** The value of a string of decimal digits, read left to right (Horner). */
  function Value(s: seq<char>): (v: nat)
    requires AllDigits(s)
  {
    if s == [] then 0 else 10 * Value(s[..|s| - 1]) + DigitValue(s[|s| - 1])
  }

  /** Reads an optionally negative decimal numeral; leading zeros allowed. */
  function ParseDecimal(s: seq<char>): Option<int>
  {
    if |s| > 1 && s[0] == '-' && AllDigits(s[1..]) then Some(0 - Value(s[1..]) as int)
    else if |s| > 0 && AllDigits(s) then Some(Value(s))
    else None
  }

  /** Bytewise lexicographic order, which is Go's `<` on strings. */
  predicate LexLess(s: seq<char>, t: seq<char>)
  {
    if s == [] then t != []
    else t != [] && (s[0] < t[0] || (s[0] == t[0] && LexLess(s[1..], t[1..])))
  }

  // ---------------------------------------------------------------------
  // Properties of the decimal notation

  lemma AllDigitsConcat(s: seq<char>, t: seq<char>)
    requires AllDigits(s) && AllDigits(t)
    ensures AllDigits(s + t)
  {
  }

  /** One Horner step: the last digit of a non-empty numeral. */
  lemma ValueOfLast(s: seq<char>)
    requires s != [] && AllDigits(s)
    ensures AllDigits(s[..|s| - 1])
    ensures Value(s) == 10 * Value(s[..|s| - 1]) + DigitValue(s[|s| - 1])
  {
  }

  lemma ShiftStep(a: int, p: int, v: int, d: int)
    ensures 10 * (a * p + v) + d == a * (10 * p) + (10 * v + d)
  {
  }

  lemma {:induction false} ValueAppend(s: seq<char>, t: seq<char>)
    requires AllDigits(s) && AllDigits(t)
    ensures AllDigits(s + t)
    ensures Value(s + t) == Value(s) * Pow10(|t|) + Value(t)
    decreases |t|
  {
    AllDigitsConcat(s, t);
    if t == [] {
      assert s + t == s;
    } else {
      var t' := t[..|t| - 1];
      var st := s + t;
      assert st[..|st| - 1] == s + t';
      assert st[|st| - 1] == t[|t| - 1];
      ValueOfLast(st);
      ValueOfLast(t);
      ValueAppend(s, t');
      ShiftStep(Value(s), Pow10(|t'|), Value(t'), DigitValue(t[|t| - 1]));
    }
  }

  lemma {:induction false} ValueOfZeros(k: nat)
    ensures Value(Zeros(k)) == 0
  {
    if k > 0 {
      assert Zeros(k)[..k - 1] == Zeros(k - 1);
      ValueOfZeros(k - 1);
    }
  }

  lemma {:induction false} ValueBound(s: seq<char>)
    requires AllDigits(s)
    ensures Value(s) < Pow10(|s|)
    decreases |s|
  {
    if s != [] {
      ValueBound(s[..|s| - 1]);
    }
  }

  /** Reading the digits of `n` gives `n` back. */
  lemma {:induction false} DigitsValue(n: nat)
    ensures Value(Digits(n)) == n
    decreases n
  {
    if n >= 10 {
      DigitsValue(n / 10);
      ValueAppend(Digits(n / 10), [DigitChar(n % 10)]);
      assert Value([DigitChar(n % 10)]) == n % 10 by {
        assert [DigitChar(n % 10)][..0] == [];
      }
    } else {
      assert [DigitChar(n)][..0] == [];
    }
  }

  /** `n` needs at most `k` digits exactly when it is below `10^k`. */
  lemma {:induction false} DigitsLength(n: nat, k: nat)
    requires k >= 1
    ensures |Digits(n)| <= k <==> n < Pow10(k)
    decreases n
  {
    if n >= 10 {
      if k == 1 {
        assert |Digits(n)| >= 2;
      } else {
        DigitsLength(n / 10, k - 1);
      }
    }
  }

  /** Padding with zeros does not change the value read back. */
  lemma {:induction false} PadZerosValue(s: GoString, width: nat)
    requires AllDigits(s)
    ensures AllDigits(PadZeros(s, width))
    ensures |PadZeros(s, width)| == if |s| >= width then |s| else width
    ensures Value(PadZeros(s, width)) == Value(s)
  {
    if |s| < width {
      ValueAppend(Zeros(width - |s|), s);
      ValueOfZeros(width - |s|);
    }
  }

  lemma ParseDigits(s: GoString)
    requires |s| > 0 && AllDigits(s)
    ensures ParseDecimal(s) == Some(Value(s) as int)
  {
    assert IsDigit(s[0]);
  }

  lemma ParseNegative(s: GoString)
    requires |s| > 0 && AllDigits(s)
    ensures ParseDecimal(['-'] + s) == Some(0 - Value(s) as int)
  {
    assert (['-'] + s)[1..] == s;
  }

  /** Every formatted integer reads back as itself, whatever the width. */
  lemma {:induction false} FormatIntRoundTrip(i: int, width: nat)
    ensures ParseDecimal(FormatInt(i, width)) == Some(i)
  {
    var n := if i < 0 then -i else i;
    var w := if i < 0 && width > 0 then width - 1 else width;
    DigitsValue(n);
    PadZerosValue(Digits(n), w);
    var body := PadZeros(Digits(n), w);
    if i < 0 {
      assert FormatInt(i, width) == ['-'] + body;
      ParseNegative(body);
    } else {
      assert FormatInt(i, width) == body;
      ParseDigits(body);
    }
  }

  /** Reading a numeral from the left: its first digit weighs `10^(|s|-1)`. */
  lemma {:induction false} ValueOfHead(s: seq<char>)
    requires s != [] && AllDigits(s)
    ensures Value(s) == DigitValue(s[0]) * Pow10(|s| - 1) + Value(s[1..])
    ensures Value(s[1..]) < Pow10(|s| - 1)
  {
    var head, tail := [s[0]], s[1..];
    assert s == head + tail;
    ValueAppend(head, tail);
    assert head[..0] == [];
    assert Value(head) == DigitValue(s[0]);
    ValueBound(tail);
  }

  /** Positional comparison: a smaller leading digit outweighs any tail. */
  lemma {:induction false} PositionalLess(a: nat, b: nat, x: nat, y: nat, p: nat)
    requires x < p && y < p
    ensures a * p + x < b * p + y <==> a < b || (a == b && x < y)
  {
    if a < b {
      assert (a + 1) * p <= b * p;
    } else if b < a {
      assert (b + 1) * p <= a * p;
    }
  }

  /** On digit strings of one length, the bytewise order is the numeric one. */
  lemma {:induction false} LexLessIsNumericLess(s: seq<char>, t: seq<char>)
    requires |s| == |t| && AllDigits(s) && AllDigits(t)
    ensures LexLess(s, t) <==> Value(s) < Value(t)
    decreases |s|
  {
    if s != [] {
      ValueOfHead(s);
      ValueOfHead(t);
      LexLessIsNumericLess(s[1..], t[1..]);
      PositionalLess(DigitValue(s[0]), DigitValue(t[0]), Value(s[1..]), Value(t[1..]), Pow10(|s| - 1));
    }
  }
}
