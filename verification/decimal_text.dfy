/**
  Decimal digits as text: the zero-padded numerals a date-time pattern
  prints, and the numbers a run of ASCII digits denotes when parsed.
 */
module DecimalText {

  predicate IsDigit(c: char) {
    '0' <= c <= '9'
  }

  predicate AllDigits(s: seq<char>) {
    forall i :: 0 <= i < |s| ==> IsDigit(s[i])
  }

  function DigitValue(c: char): (n: int)
    requires IsDigit(c)
    ensures 0 <= n < 10
  {
    c as int - '0' as int
  }

  function DigitChar(n: int): (c: char)
    requires 0 <= n < 10
    ensures IsDigit(c) && DigitValue(c) == n
  {
    ('0' as int + n) as char
  }

  function Pow10(k: nat): (p: nat)
    ensures p >= 1
  {
    if k == 0 then 1 else 10 * Pow10(k - 1)
  }

  lemma {:induction false} Pow10Monotone(a: nat, b: nat)
    requires a <= b
    ensures Pow10(a) <= Pow10(b)
    decreases b
  {
    if a < b {
      Pow10Monotone(a, b - 1);
    }
  }

  /** The number a run of digits denotes, most significant digit first. */
  function DecimalValue(s: seq<char>): (n: nat)
    requires AllDigits(s)
    ensures n < Pow10(|s|)
  {
    if s == [] then 0
    else DecimalValue(s[..|s| - 1]) * 10 + DigitValue(s[|s| - 1])
  }

  /** Appending a digit shifts the value one decimal place. */
  lemma DecimalValueSnoc(s: seq<char>, c: char)
    requires AllDigits(s) && IsDigit(c)
    ensures AllDigits(s + [c])
    ensures DecimalValue(s + [c]) == DecimalValue(s) * 10 + DigitValue(c)
  {
    assert (s + [c])[..|s|] == s;
  }

  /** Dropping the last decimal digit divides by ten, on either side of a power of ten. */
  lemma DropLastDigit(n: nat, p: nat)
    ensures n == 10 * (n / 10) + n % 10
    ensures n < 10 * p <==> n / 10 < p
    ensures p <= n / 10 <==> 10 * p <= n
  {
  }

  /**
    `n` in decimal, zero-padded on the left to at least `width` digits and
    never shorter than it needs to be.
   */
  function PadDigits(n: nat, width: nat): (r: seq<char>)
    ensures AllDigits(r) && DecimalValue(r) == n
    ensures |r| >= width && |r| >= 1
    ensures n < Pow10(width) ==> |r| == if width == 0 then 1 else width
    ensures |r| > width && |r| > 1 ==> Pow10(|r| - 1) <= n
    decreases n, width
  {
    if n < 10 && width <= 1 then [DigitChar(n)]
    else
      var prefix := PadDigits(n / 10, if width == 0 then 0 else width - 1);
      var last := DigitChar(n % 10);
      DecimalValueSnoc(prefix, last);
      DropLastDigit(n, 0);
      PadLengthStep(n, width, |prefix|);
      assert |prefix + [last]| - 1 == |prefix|;
      prefix + [last]
  }

  /**
    The length bounds of a padded numeral carry over from the numeral of
    `n / 10` (at one digit less width) to that of `n`, one digit longer.
   */
  lemma PadLengthStep(n: nat, width: nat, len: nat)
    requires !(n < 10 && width <= 1)
    requires var w := if width == 0 then 0 else width - 1;
             && len >= w && len >= 1
             && (n / 10 < Pow10(w) ==> len == if w == 0 then 1 else w)
             && (len > w && len > 1 ==> Pow10(len - 1) <= n / 10)
    ensures len + 1 >= width
    ensures n < Pow10(width) ==> len + 1 == if width == 0 then 1 else width
    ensures len + 1 > width ==> Pow10(len) <= n
  {
    var w := if width == 0 then 0 else width - 1;
    DropLastDigit(n, Pow10(w));
    DropLastDigit(n, Pow10(len - 1));
    assert Pow10(len) == 10 * Pow10(len - 1);
  }

  /** A number below 10^k takes at most k digits when padded to at most k. */
  lemma PadDigitsLength(n: nat, width: nat, k: nat)
    requires 1 <= k && width <= k
    ensures n < Pow10(k) ==> |PadDigits(n, width)| <= k
  {
    var r := PadDigits(n, width);
    if n < Pow10(k) && |r| > k {
      Pow10Monotone(k, |r| - 1);
    }
  }

  /** A run of digits is the padded numeral of its own value at its own width. */
  lemma {:induction false} PadDigitsOfDecimalValue(s: seq<char>)
    requires AllDigits(s) && |s| >= 1
    ensures PadDigits(DecimalValue(s), |s|) == s
    decreases |s|
  {
    var init, last := s[..|s| - 1], s[|s| - 1];
    assert s == init + [last];
    var v := DecimalValue(s);
    assert v == DecimalValue(init) * 10 + DigitValue(last);
    DropLastDigit(v, 0);
    assert v / 10 == DecimalValue(init) && v % 10 == DigitValue(last);
    assert DigitChar(DigitValue(last)) == last;
    if |s| > 1 {
      PadDigitsOfDecimalValue(init);
      assert PadDigits(v, |s|) == PadDigits(v / 10, |s| - 1) + [DigitChar(v % 10)];
    }
  }

  /** The number of digits at the front of `s`. */
  function LeadingDigits(s: seq<char>): (n: nat)
    ensures n <= |s|
    ensures AllDigits(s[..n])
    ensures n < |s| ==> !IsDigit(s[n])
  {
    if s == [] || !IsDigit(s[0]) then 0
    else 1 + LeadingDigits(s[1..])
  }

  /** A run of digits followed by a non-digit is read to its end and no further. */
  lemma {:induction false} LeadingDigitsOfRun(digits: seq<char>, rest: seq<char>)
    requires AllDigits(digits)
    requires rest == [] || !IsDigit(rest[0])
    ensures LeadingDigits(digits + rest) == |digits|
    decreases |digits|
  {
    if digits == [] {
      assert digits + rest == rest;
    } else {
      assert (digits + rest)[1..] == digits[1..] + rest;
      LeadingDigitsOfRun(digits[1..], rest);
    }
  }

  /** A slice of a prefix is a slice of the whole. */
  lemma SliceOfPrefix(s: seq<char>, i: nat, j: nat)
    requires i <= j <= |s|
    ensures s[..j][i..] == s[i..j]
  {
  }

  /** Any part of the leading run of digits of `s[i..]` is all digits. */
  lemma LeadingDigitsSlice(s: seq<char>, i: nat, k: nat)
    requires i <= |s| && k <= LeadingDigits(s[i..])
    ensures i + k <= |s| && AllDigits(s[i..i + k])
  {
    var rest := s[i..];
    var run := rest[..LeadingDigits(rest)];
    var part := s[i..i + k];
    assert AllDigits(run) && k <= |run|;
    forall j | 0 <= j < k
      ensures IsDigit(part[j])
    {
      assert part[j] == run[j];
    }
  }

  /** Two digits at position `i` spell the two-character numeral `x`. */
  lemma PairAt(t: seq<char>, i: nat, x: seq<char>)
    requires |x| == 2 && i + 2 <= |t| && t[i] == x[0] && t[i + 1] == x[1]
    ensures t[i..i + 2] == x
  {
  }

  /** The four-digit numeral of a number below 10000, digit by digit. */
  lemma FourDigits(n: nat)
    requires n < 10000
    ensures PadDigits(n, 4) == [DigitChar(n / 1000), DigitChar(n / 100 % 10), DigitChar(n / 10 % 10), DigitChar(n % 10)]
  {
    assert n / 10 / 10 == n / 100 && n / 100 / 10 == n / 1000;
    assert PadDigits(n, 4) == PadDigits(n / 10, 3) + [DigitChar(n % 10)];
    assert PadDigits(n / 10, 3) == PadDigits(n / 100, 2) + [DigitChar(n / 10 % 10)];
    assert PadDigits(n / 100, 2) == PadDigits(n / 1000, 1) + [DigitChar(n / 100 % 10)];
    assert n / 1000 < 10 && PadDigits(n / 1000, 1) == [DigitChar(n / 1000)];
  }
}
