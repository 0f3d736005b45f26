/** Every text of a number, and what `strtol` with base 0 makes of it. */
module StrToLSyntax {
  import opened ByteStrings
  import opened HttpSyntax

  /** Decimal digits without a leading zero, octal digits behind a zero, or hexadecimal digits behind `0x`. */
  datatype Notation = Decimals(digits: Bytes) | Octals(digits: Bytes) | Hexes(x: Byte, digits: Bytes)

  datatype Sign = NoSign | Plus | Minus

  predicate IsDigitOf(c: Byte, base: nat) {
    || '0' as int <= c < '0' as int + (if base < 10 then base else 10)
    || (base == 16 && ('a' as int <= c <= 'f' as int || 'A' as int <= c <= 'F' as int))
  }

  /** What a digit is worth. */
  function Worth(c: Byte): int {
    if c <= '9' as int then c - '0' as int else if c <= 'F' as int then 10 + c - 'A' as int else 10 + c - 'a' as int
  }

  /** The value of digits by their places. */
  function Value(digits: Bytes, base: nat): int {
    if digits == [] then 0 else Value(digits[..|digits| - 1], base) * base + Worth(digits[|digits| - 1])
  }

  function Base(n: Notation): nat {
    match n
    case Decimals(_) => 10
    case Octals(_) => 8
    case Hexes(_, _) => 16
  }

  predicate AllDigits(s: Bytes, base: nat) {
    forall i | 0 <= i < |s| :: IsDigitOf(s[i], base)
  }

  predicate Proper(n: Notation) {
    match n
    case Decimals(digits) => AllDigits(digits, 10) && (digits != [] ==> digits[0] != '0' as int)
    case Octals(digits) => AllDigits(digits, 8)
    case Hexes(x, digits) => AllDigits(digits, 16) && digits != [] && x in {'x' as int, 'X' as int}
  }

  function NotationText(n: Notation): Bytes {
    match n
    case Decimals(digits) => digits
    case Octals(digits) => ['0' as int] + digits
    case Hexes(x, digits) => ['0' as int, x] + digits
  }

  function SignText(sign: Sign): Bytes {
    match sign
    case NoSign => []
    case Plus => ['+' as int]
    case Minus => ['-' as int]
  }

  /** What follows is no digit any more, and does not make a hexadecimal number of a zero. */
  predicate Ends(n: Notation, tail: Bytes) {
    && (tail != [] ==> !IsDigitOf(tail[0], Base(n)))
    && (n == Octals([]) ==> |tail| >= 2 && tail[0] in {'x' as int, 'X' as int} ==> !IsDigitOf(tail[1], 16))
    && (n == Decimals([]) && tail != [] ==> tail[0] !in {'+' as int, '-' as int} && !IsSpace(tail[0]))
  }

  /** The limits of a 64-bit `long`. */
  function Clamped(v: int): int {
    if v > 0x7FFF_FFFF_FFFF_FFFF then 0x7FFF_FFFF_FFFF_FFFF
    else if v < -0x8000_0000_0000_0000 then -0x8000_0000_0000_0000
    else v
  }

  lemma OneDigit(c: Byte, base: nat)
    requires base in {8, 10, 16}
    ensures IsDigitOf(c, base) <==> DigitValue(c) < base
    ensures IsDigitOf(c, base) ==> DigitValue(c) == Worth(c)
  {
  }

  lemma DigitCounts(done: Bytes, c: Byte, base: nat)
    requires base in {8, 10, 16} && IsDigitOf(c, base) && Value(done, base) >= 0
    ensures Value(done + [c], base) == Value(done, base) * base + DigitValue(c) >= 0
  {
    hide IsDigitOf, Worth, DigitValue;
    OneDigit(c, base);
    assert (done + [c])[..|done|] == done;
  }

  lemma MagnitudeStep(s: Bytes, base: nat, v: nat)
    requires base in {8, 10, 16}
    ensures s == [] || !IsDigitOf(s[0], base) ==> Magnitude(s, base, v) == v
    ensures s != [] && IsDigitOf(s[0], base) ==> Magnitude(s, base, v) == Magnitude(s[1..], base, v * base + DigitValue(s[0]))
  {
    hide IsDigitOf, Worth, DigitValue;
    if s != [] { OneDigit(s[0], base); }
  }

  lemma {:induction false} MagnitudeRead(done: Bytes, digits: Bytes, tail: Bytes, base: nat)
    requires base in {8, 10, 16} && AllDigits(digits, base) && (tail != [] ==> !IsDigitOf(tail[0], base))
    requires Value(done, base) >= 0
    ensures Magnitude(digits + tail, base, Value(done, base)) == Value(done + digits, base) >= 0
    decreases |digits|
  {
    hide IsDigitOf, Worth, DigitValue, Magnitude, Value;
    var s := digits + tail;
    MagnitudeStep(s, base, Value(done, base));
    if digits == [] {
      assert s == tail && done + digits == done;
    } else {
      var next := done + [digits[0]];
      DigitCounts(done, digits[0], base);
      assert s[0] == digits[0] && s[1..] == digits[1..] + tail;
      assert next + digits[1..] == done + digits;
      MagnitudeRead(next, digits[1..], tail, base);
    }
  }

  /** Which base is guessed, and where the digits begin. */
  lemma BaseGuessed(n: Notation, tail: Bytes)
    requires Proper(n) && Ends(n, tail)
    ensures Unsigned(NotationText(n) + tail) == Magnitude(n.digits + tail, Base(n), 0)
  {
    hide Magnitude, DigitValue, AllDigits;
    var s := NotationText(n) + tail;
    match n
    case Decimals(digits) => NoPrefix(n, tail);
    case Octals(digits) =>
      NoPrefix(n, tail);
      assert s[1..] == digits + tail;
      ZeroFirst(s);
    case Hexes(x, digits) => PrefixSeen(x, digits, tail);
  }

  lemma PrefixSeen(x: Byte, digits: Bytes, tail: Bytes)
    requires Proper(Hexes(x, digits))
    ensures var s := ['0' as int, x] + digits + tail; HasHexPrefix(s) && s[2..] == digits + tail
  {
    hide DigitValue, IsDigitOf;
    var s := ['0' as int, x] + digits + tail;
    assert s[2..] == digits + tail && s[2] == digits[0];
    OneDigit(digits[0], 16);
  }

  lemma UnsignedRead(n: Notation, tail: Bytes)
    requires Proper(n) && Ends(n, tail)
    ensures Unsigned(NotationText(n) + tail) == Value(n.digits, Base(n)) >= 0
  {
    hide Magnitude, DigitValue, Value, Unsigned, NotationText, IsDigitOf, AllDigits;
    BaseGuessed(n, tail);
    ValueOfNothing(Base(n));
    MagnitudeRead([], n.digits, tail, Base(n));
    assert [] + n.digits == n.digits;
  }

  lemma ValueOfNothing(base: nat)
    ensures Value([], base) == 0
  {
  }

  lemma ZeroFirst(s: Bytes)
    requires s != [] && s[0] == '0' as int
    ensures Magnitude(s, 8, 0) == Magnitude(s[1..], 8, 0)
  {
  }

  /** A number that is not hexadecimal is not read as one. */
  lemma NoPrefix(n: Notation, tail: Bytes)
    requires Proper(n) && Ends(n, tail) && !n.Hexes?
    ensures var s := NotationText(n) + tail;
            !HasHexPrefix(s) && (if n.Octals? then s[0] == '0' as int else s == [] || s[0] != '0' as int)
  {
    hide DigitValue;
    var s := NotationText(n) + tail;
    if n.Octals? && |s| >= 3 {
      OneDigit(s[2], 16);
      if n.digits != [] { assert s[1] == n.digits[0]; } else { assert s[1] == tail[0] && s[2] == tail[1]; }
    }
    if n.Decimals? {
      if n.digits == [] { assert s == tail; } else { assert s[0] == n.digits[0]; }
    }
  }

  lemma {:induction false} BlanksSkipped(blanks: Bytes, s: Bytes)
    requires (forall i | 0 <= i < |blanks| :: IsSpace(blanks[i])) && (s != [] ==> !IsSpace(s[0]))
    ensures SkipSpaces(blanks + s) == s
    decreases |blanks|
  {
    if blanks == [] {
      assert blanks + s == s;
    } else {
      assert (blanks + s)[0] == blanks[0] && (blanks + s)[1..] == blanks[1..] + s;
      BlanksSkipped(blanks[1..], s);
    }
  }

  lemma NoSignFirst(n: Notation, tail: Bytes)
    requires Proper(n) && Ends(n, tail)
    ensures var s := NotationText(n) + tail; s != [] ==> s[0] !in {'+' as int, '-' as int} && !IsSpace(s[0])
  {
    var s := NotationText(n) + tail;
    if n.Decimals? {
      if n.digits == [] { assert s == tail; } else { assert s[0] == n.digits[0]; }
    }
  }

  /** White space, a sign and a number in any of the three notations, up to what is no digit of it. */
  lemma NumberRead(blanks: Bytes, sign: Sign, n: Notation, tail: Bytes)
    requires (forall i | 0 <= i < |blanks| :: IsSpace(blanks[i])) && Proper(n) && Ends(n, tail)
    ensures var v := Value(n.digits, Base(n));
            StrToL(blanks + (SignText(sign) + (NotationText(n) + tail))) == Clamped(if sign.Minus? then -v else v)
  {
    hide Magnitude, Value, Unsigned, NotationText, Proper, Ends, SkipSpaces;
    var number := NotationText(n) + tail;
    var s := SignText(sign) + number;
    NoSignFirst(n, tail);
    UnsignedRead(n, tail);
    assert sign.NoSign? ==> s == number;
    assert !sign.NoSign? ==> s[1..] == number;
    BlanksSkipped(blanks, s);
  }
}
