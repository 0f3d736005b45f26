/** Decimal numbers: the conversions of `sds.c` and the digit count of `hiredis.c`. */
module SdsNumbers {
  import opened ByteStrings
  import opened Resp

  /** Room for the longest number and its NUL. */
  const LLSTR_SIZE: nat := 21

  const TWO_63: int := 0x8000_0000_0000_0000
  const TWO_64: int := 0x1_0000_0000_0000_0000

  /** The decimal digits of `n`, without leading zeros. */
  function Decimal(n: nat): (d: Bytes)
    ensures d != []
    ensures forall c | c in d :: IsDigit(c)
  {
    if n < 10 then [ZERO + n] else Decimal(n / 10) + [ZERO + n % 10]
  }

  function SignedDecimal(v: int): Bytes {
    if v < 0 then [MINUS] + Decimal(-v) else Decimal(v)
  }

  function Pow10(k: nat): nat {
    if k == 0 then 1 else 10 * Pow10(k - 1)
  }

  /** The number of digits is the number of powers of ten that do not exceed `n`. */
  lemma {:induction false} DecimalLength(n: nat, k: nat)
    ensures |Decimal(n)| <= k + 1 <==> n < Pow10(k + 1)
  {
    if n >= 10 {
      if k == 0 {
        assert Pow10(1) == 10;
      } else {
        DecimalLength(n / 10, k - 1);
        assert Pow10(k + 1) == 10 * Pow10(k);
      }
    } else {
      PowPositive(k);
    }
  }

  lemma {:induction false} PowPositive(k: nat)
    ensures Pow10(k) >= 1
  {
    if k > 0 { PowPositive(k - 1); }
  }

  /** Every 64-bit number fits the buffer, also with a sign in front when its magnitude is below 2^63. */
  lemma DecimalFits(n: nat)
    ensures n < TWO_64 ==> |Decimal(n)| <= LLSTR_SIZE - 1
    ensures n <= TWO_63 ==> |Decimal(n)| <= LLSTR_SIZE - 2
  {
    assert Pow10(5) == 100000;
    assert Pow10(10) == 10000000000;
    assert Pow10(15) == 1000000000000000;
    assert Pow10(19) == 10000000000000000000;
    assert Pow10(20) == 100000000000000000000;
    DecimalLength(n, 18);
    DecimalLength(n, 19);
  }

  lemma {:induction false} DigitsAppend(a: Bytes, d: Byte, v: nat)
    requires IsDigit(d) && CR !in a && Digits(a, v).Some?
    ensures Digits(a + [d], v) == Some(10 * Digits(a, v).value + (d - ZERO))
  {
    if a == [] {
      assert a + [d] == [d];
      assert Digits([], 10 * v + (d - ZERO)) == Some(10 * v + (d - ZERO));
    } else {
      assert (a + [d])[1..] == a[1..] + [d];
      DigitsAppend(a[1..], d, 10 * v + (a[0] - ZERO));
    }
  }

  /** Reading the digits of a number gives the number back. */
  lemma {:induction false} DigitsDecimal(n: nat)
    ensures Digits(Decimal(n), 0) == Some(n)
  {
    if n >= 10 {
      DigitsDecimal(n / 10);
      DigitsAppend(Decimal(n / 10), ZERO + n % 10, 0);
    } else {
      assert Digits([], n) == Some(n);
    }
  }

  lemma NumberSignedDecimal(v: int)
    ensures Number(SignedDecimal(v)) == v
  {
    var n: nat := if v < 0 then -v else v;
    DigitsDecimal(n);
    var line := SignedDecimal(v);
    assert Decimal(n)[0] in Decimal(n);
    assert v < 0 ==> line[1..] == Decimal(n);
  }

  // ---------- The loops ----------

  /** `countDigits` */
  method CountDigits(v: nat) returns (result: nat)
    ensures result == |Decimal(v)|
  {
    var rest := v;
    result := 1;
    while true
      invariant result + |Decimal(rest)| == 1 + |Decimal(v)|
      decreases rest
    {
      DecimalLength(rest, 0);
      DecimalLength(rest, 1);
      DecimalLength(rest, 2);
      DecimalLength(rest, 3);
      assert Pow10(1) == 10 && Pow10(2) == 100 && Pow10(3) == 1000 && Pow10(4) == 10000;
      if rest < 10 { return result; }
      if rest < 100 { return result + 1; }
      if rest < 1000 { return result + 2; }
      if rest < 10000 { return result + 3; }
      FourDigits(rest);
      rest := rest / 10000;
      result := result + 4;
    }
  }

  lemma FourDigits(n: nat)
    requires n >= 10000
    ensures |Decimal(n)| == |Decimal(n / 10000)| + 4
  {
    assert n / 10 / 10 == n / 100 && n / 100 / 10 == n / 1000 && n / 1000 / 10 == n / 10000;
    assert |Decimal(n)| == 1 + |Decimal(n / 10)|;
    assert |Decimal(n / 10)| == 1 + |Decimal(n / 100)|;
    assert |Decimal(n / 100)| == 1 + |Decimal(n / 1000)|;
  }

  function Reversed(s: Bytes): (r: Bytes)
    ensures |r| == |s|
  {
    seq(|s|, i requires 0 <= i < |s| => s[|s| - 1 - i])
  }

  /** The reversal at the end of both conversions: swaps from the outside in. */
  method ReverseInPlace(s: array<Byte>, l: nat)
    requires 0 < l <= s.Length
    modifies s
    ensures s[..l] == Reversed(old(s[..l]))
    ensures s[l..] == old(s[l..])
  {
    var i, p := 0, l - 1;
    while i < p
      invariant 0 <= i <= l && p == l - 1 - i
      invariant forall j | 0 <= j < i :: s[j] == old(s[l - 1 - j]) && s[l - 1 - j] == old(s[j])
      invariant forall j | i <= j <= p :: s[j] == old(s[j])
      invariant s[l..] == old(s[l..])
    {
      var aux := s[i];
      s[i] := s[p];
      s[p] := aux;
      i, p := i + 1, p - 1;
    }
    forall j | 0 <= j < l
      ensures s[j] == old(s[l - 1 - j])
    {
      var mirror := l - 1 - j;
      assert j < i || mirror < i || i <= j <= p;
    }
  }

  /** The digit loop: writes the digits from the last to the first. */
  method WriteDigits(s: array<Byte>, value: nat) returns (k: nat)
    requires |Decimal(value)| <= s.Length
    modifies s
    ensures k == |Decimal(value)| && Reversed(s[..k]) == Decimal(value)
  {
    var v := value;
    s[0] := ZERO + v % 10;
    k := 1;
    v := v / 10;
    assert Reversed(s[..1]) == [ZERO + value % 10];
    while v != 0
      invariant 1 <= k && k + (if v == 0 then 0 else |Decimal(v)|) == |Decimal(value)|
      invariant Decimal(value) == (if v == 0 then [] else Decimal(v)) + Reversed(s[..k])
      decreases v
    {
      ghost var done := s[..k];
      s[k] := ZERO + v % 10;
      assert s[..k + 1] == done + [ZERO + v % 10];
      assert Reversed(s[..k + 1]) == [ZERO + v % 10] + Reversed(done);
      assert v >= 10 ==> Decimal(v) + Reversed(done) == Decimal(v / 10) + ([ZERO + v % 10] + Reversed(done));
      k := k + 1;
      v := v / 10;
    }
  }

  /** `sdsull2str` */
  method Ull2Str(s: array<Byte>, value: nat) returns (l: nat)
    requires s.Length >= LLSTR_SIZE && value < TWO_64
    modifies s
    ensures l < LLSTR_SIZE && s[..l] == Decimal(value) && s[l] == NUL
  {
    DecimalFits(value);
    l := WriteDigits(s, value);
    ghost var backwards := s[..l];
    s[l] := NUL;
    assert s[..l] == backwards;
    ReverseInPlace(s, l);
    assert s[l] == s[l..][0];
  }

  /** `sdsll2str`; the least 64-bit number has no magnitude in the signed type and is left out. */
  method Ll2Str(s: array<Byte>, value: int) returns (l: nat)
    requires s.Length >= LLSTR_SIZE && -TWO_63 < value < TWO_63
    modifies s
    ensures l < LLSTR_SIZE && s[..l] == SignedDecimal(value) && s[l] == NUL
  {
    var v: nat := if value < 0 then -value else value;
    DecimalFits(v);
    l := WriteDigits(s, v);
    ghost var digits := s[..l];
    if value < 0 {
      s[l] := MINUS;
      l := l + 1;
      assert s[..l] == digits + [MINUS];
      assert Reversed(digits + [MINUS]) == [MINUS] + Reversed(digits);
    }
    ghost var backwards := s[..l];
    s[l] := NUL;
    assert s[..l] == backwards;
    ReverseInPlace(s, l);
    assert s[l] == s[l..][0];
  }
}
