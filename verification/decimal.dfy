/**
 Decimal rendering of the application size: Python's
 `"%.2f" % (int(app_size) / 1024 / 1024)`.

 For a byte count `n` with |n| < 2^53 both divisions are exact in binary
 floating point, so the float printed is exactly n / 2^20, and `%.2f`
 prints that value correctly rounded to hundredths, ties to even, with a
 leading '-' whenever the float is negative (also when it rounds to 0.00).
 */
module Decimal {

  datatype Option<T> = None | Some(value: T)

  function Abs(x: int): nat {
    if x < 0 then -x else x
  }

  function DigitChar(d: nat): (c: char)
    requires d < 10
    ensures '0' <= c <= '9' && DigitValue(c) == d
  {
    ('0' as int + d) as char
  }

  function DigitValue(c: char): nat
    requires '0' <= c <= '9'
  {
    c as int - '0' as int
  }

  predicate IsDigits(s: string) {
    forall k :: 0 <= k < |s| ==> '0' <= s[k] <= '9'
  }

  /** The value of a numeral of decimal digits, most significant first. */
  function DecimalToNat(s: string): nat
    requires IsDigits(s)
  {
    if |s| == 0 then 0
    else DecimalToNat(s[..|s| - 1]) * 10 + DigitValue(s[|s| - 1])
  }

  /** Python's `str(n)` for a natural number: at least one digit, and no
      leading zero unless the number is 0. */
  function NatToDecimal(n: nat): (s: string)
    ensures IsDigits(s)
    ensures |s| >= 1
    ensures |s| > 1 ==> s[0] != '0'
    ensures n < 10 <==> |s| == 1
  {
    if n < 10 then [DigitChar(n)]
    else NatToDecimal(n / 10) + [DigitChar(n % 10)]
  }

  /** Reading back the numeral `NatToDecimal` writes gives the number. */
  lemma {:induction false} DecimalRoundTrip(n: nat)
    ensures DecimalToNat(NatToDecimal(n)) == n
  {
    var s := NatToDecimal(n);
    if n < 10 {
      assert s[..0] == [];
    } else {
      DecimalRoundTrip(n / 10);
      assert s[..|s| - 1] == NatToDecimal(n / 10);
    }
  }

  /** The integer nearest to num / den, the even one of two equally near. */
  function RoundHalfEven(num: int, den: int): (r: int)
    requires den > 0
    ensures 2 * Abs(r * den - num) <= den
    ensures 2 * Abs(r * den - num) == den ==> r % 2 == 0
  {
    var q := num / den;
    var rem := num % den;
    assert q * den + rem == num;
    if 2 * rem < den then q
    else if 2 * rem > den then q + 1
    else if q % 2 == 0 then q
    else q + 1
  }

  /** Bytes in the megabyte the source divides by (1024 * 1024). */
  const BytesPerMegabyte: int := 1024 * 1024

  /** The byte count `n`, in megabytes, rounded to hundredths. */
  function MegabyteHundredths(n: int): int {
    RoundHalfEven(100 * n, BytesPerMegabyte)
  }

  /** The number a `%.2f` text stands for, in hundredths: an optional '-'
      before an unsigned text. */
  function FixedToHundredths(s: string): Option<int> {
    if |s| > 0 && s[0] == '-' then
      match UnsignedFixed(s[1..])
      case None => None
      case Some(v) => Some(-v)
    else UnsignedFixed(s)
  }

  /** One or more digits, a '.', and exactly two digits, in hundredths. */
  function UnsignedFixed(t: string): Option<int> {
    if |t| < 4 || t[|t| - 3] != '.' then None
    else
      var whole := t[..|t| - 3];
      var frac := t[|t| - 2..];
      if !IsDigits(whole) || !IsDigits(frac) then None
      else Some(DecimalToNat(whole) * 100 + DecimalToNat(frac))
  }

  /** A text without its leading '-', if it has one. */
  function Unsigned(s: string): string {
    if |s| > 0 && s[0] == '-' then s[1..] else s
  }

  /** The integer part has no leading zero: a text whose unsigned part
      starts with '0' is "0.dd". Among the texts that read back as the same
      number with the same sign, exactly one has this form. */
  predicate NoLeadingZero(s: string) {
    var t := Unsigned(s);
    |t| > 0 && (t[0] == '0' ==> |t| == 4)
  }

  /** `"%.2f" % (n / 1024 / 1024)` for |n| < 2^53. */
  function Megabytes(n: int): (s: string)
    ensures FixedToHundredths(s) == Some(MegabyteHundredths(n))
    ensures |s| > 0 && (s[0] == '-' <==> n < 0)
    ensures NoLeadingZero(s)
  {
    var h := MegabyteHundredths(n);
    var a := Abs(h);
    var whole := NatToDecimal(a / 100);
    var frac := [DigitChar(a % 100 / 10), DigitChar(a % 10)];
    var s := (if n < 0 then "-" else "") + whole + "." + frac;
    MegabytesReadsBack(n, h, whole, frac, s);
    s
  }

  /** Rounding never crosses zero. */
  lemma RoundingKeepsSign(n: int)
    ensures n >= 0 ==> MegabyteHundredths(n) >= 0
    ensures n < 0 ==> MegabyteHundredths(n) <= 0
  {
  }

  /** Reading digits, '.', two digits gives their value in hundredths. */
  lemma {:induction false} ReadUnsigned(whole: string, frac: string)
    requires IsDigits(whole) && |whole| >= 1
    requires IsDigits(frac) && |frac| == 2
    ensures UnsignedFixed(whole + "." + frac)
      == Some(DecimalToNat(whole) * 100 + DecimalToNat(frac))
  {
    var t := whole + "." + frac;
    assert t[|t| - 3] == '.';
    assert t[..|t| - 3] == whole;
    assert t[|t| - 2..] == frac;
  }

  lemma TwoDigits(a: nat, frac: string)
    requires frac == [DigitChar(a % 100 / 10), DigitChar(a % 10)]
    ensures IsDigits(frac) && DecimalToNat(frac) == a % 100
  {
    var hi := frac[..1];
    assert hi == [frac[0]] && hi[..0] == [];
    assert frac[..|frac| - 1] == hi;
    assert DecimalToNat(hi) == DigitValue(frac[0]) == a % 100 / 10;
    assert DigitValue(frac[1]) == a % 10;
    assert DecimalToNat(frac) == DecimalToNat(hi) * 10 + a % 10;
  }

  /** An optional '-' before an unsigned text: the sign is the '-', and
      what follows it is the unsigned text. */
  lemma SignedText(t: string, negative: bool, s: string)
    requires |t| > 0 && t[0] != '-'
    requires s == (if negative then "-" else "") + t
    ensures Unsigned(s) == t
    ensures |s| > 0 && (s[0] == '-' <==> negative)
  {
    if negative {
      assert s[1..] == t;
    }
  }

  lemma MegabytesReadsBack(n: int, h: int, whole: string, frac: string, s: string)
    requires h == MegabyteHundredths(n)
    requires whole == NatToDecimal(Abs(h) / 100)
    requires frac == [DigitChar(Abs(h) % 100 / 10), DigitChar(Abs(h) % 10)]
    requires s == (if n < 0 then "-" else "") + whole + "." + frac
    ensures FixedToHundredths(s) == Some(h)
    ensures |s| > 0 && (s[0] == '-' <==> n < 0)
    ensures NoLeadingZero(s)
  {
    RoundingKeepsSign(n);
    var a := Abs(h);
    var t := whole + "." + frac;
    DecimalRoundTrip(a / 100);
    TwoDigits(a, frac);
    ReadUnsigned(whole, frac);
    assert UnsignedFixed(t) == Some(a);
    assert t[0] == whole[0];
    assert s == (if n < 0 then "-" else "") + t;
    SignedText(t, n < 0, s);
  }

  /** A numeral whose first digit is not '0' stands for a positive number. */
  lemma {:induction false} LeadingDigitPositive(p: string)
    requires IsDigits(p) && |p| >= 1 && p[0] != '0'
    ensures DecimalToNat(p) >= 1
    decreases |p|
  {
    var q := p[..|p| - 1];
    if |p| == 1 {
      assert q == [];
    } else {
      assert q[0] == p[0];
      LeadingDigitPositive(q);
    }
  }

  /** A numeral without a leading zero is the one `NatToDecimal` writes for
      its value. */
  lemma {:induction false} CanonicalNumeral(w: string)
    requires IsDigits(w) && |w| >= 1
    requires |w| > 1 ==> w[0] != '0'
    ensures NatToDecimal(DecimalToNat(w)) == w
    decreases |w|
  {
    var n := DecimalToNat(w);
    var p := w[..|w| - 1];
    var last := w[|w| - 1];
    assert DigitChar(DigitValue(last)) == last;
    if |w| == 1 {
      assert p == [];
      assert n == DigitValue(last);
    } else {
      assert p[0] == w[0];
      LeadingDigitPositive(p);
      CanonicalNumeral(p);
      assert n / 10 == DecimalToNat(p) && n % 10 == DigitValue(last);
      assert w == p + [last];
    }
  }

  /** A two-digit text is fixed by its value. */
  lemma TwoDigitText(f: string)
    requires IsDigits(f) && |f| == 2
    ensures DecimalToNat(f) < 100
    ensures f == [DigitChar(DecimalToNat(f) / 10), DigitChar(DecimalToNat(f) % 10)]
  {
    var hi := f[..1];
    assert hi == [f[0]] && hi[..0] == [];
    assert f[..|f| - 1] == hi;
    assert DecimalToNat(hi) == DigitValue(f[0]);
    assert DigitChar(DigitValue(f[0])) == f[0];
    assert DigitChar(DigitValue(f[1])) == f[1];
    assert DecimalToNat(f) == DigitValue(f[0]) * 10 + DigitValue(f[1]);
  }

  /** An unsigned text without a leading zero is determined by its value. */
  lemma UnsignedForm(t: string)
    requires UnsignedFixed(t).Some?
    requires |t| > 0 && (t[0] == '0' ==> |t| == 4)
    ensures var v := UnsignedFixed(t).value;
      v >= 0 &&
      t == NatToDecimal(v / 100) + "." + [DigitChar(v % 100 / 10), DigitChar(v % 10)]
  {
    var whole := t[..|t| - 3];
    var frac := t[|t| - 2..];
    assert t == whole + "." + frac;
    if |whole| > 1 {
      assert whole[0] == t[0];
    }
    CanonicalNumeral(whole);
    TwoDigitText(frac);
    var w := DecimalToNat(whole);
    var f := DecimalToNat(frac);
    var v := UnsignedFixed(t).value;
    assert v == w * 100 + f;
    assert v / 100 == w && v % 100 == f;
  }

  /** Two texts with the same sign, the same value and no leading zero are
      the same text: the contract of `Megabytes` fixes its result. */
  lemma FixedTextUnique(s1: string, s2: string)
    requires FixedToHundredths(s1).Some? && FixedToHundredths(s1) == FixedToHundredths(s2)
    requires NoLeadingZero(s1) && NoLeadingZero(s2)
    requires (|s1| > 0 && s1[0] == '-') == (|s2| > 0 && s2[0] == '-')
    ensures s1 == s2
  {
    var t1 := Unsigned(s1);
    var t2 := Unsigned(s2);
    assert UnsignedFixed(t1).Some? && UnsignedFixed(t2).Some?;
    assert UnsignedFixed(t1) == UnsignedFixed(t2);
    UnsignedForm(t1);
    UnsignedForm(t2);
    assert t1 == t2;
    if |s1| > 0 && s1[0] == '-' {
      assert s1 == [s1[0]] + t1 && s2 == [s2[0]] + t2;
    }
  }
}
