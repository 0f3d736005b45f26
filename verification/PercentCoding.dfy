/** The percent coding of `src/utility.cpp` (section 2.1 of RFC 3986). */
module PercentCoding {
  import opened ByteStrings

  // ---------- Hexadecimal digits ----------

  function HexDigit(d: nat): (c: Byte)
    requires d < 16
    ensures IsHexDigit(c)
  {
    if d > 9 then d + UPPER_A - 10 else d + ZERO
  }

  /** `char2hex`. */
  function Char2Hex(c: Byte): Bytes {
    [HexDigit(c / 16), HexDigit(c % 16)]
  }

  /** `c & 0xDF`, which makes a letter upper-case. */
  function WithoutBit5(c: Byte): Byte {
    if (c / 32) % 2 == 1 then c - 32 else c
  }

  function HexValue(c: Byte): int {
    if c >= UPPER_A then WithoutBit5(c) - UPPER_A + 10 else c - ZERO
  }

  /** `hex2char`: the sum is truncated to a byte. */
  function Hex2Char(first: Byte, second: Byte): Byte {
    (HexValue(first) * 16 + HexValue(second)) % 256
  }

  lemma HexRoundTrip(c: Byte)
    ensures Hex2Char(HexDigit(c / 16), HexDigit(c % 16)) == c
  {
  }

  // ---------- Encoding and decoding ----------

  /** The bytes that stand for themselves: letters, digits and marks. */
  predicate Unreserved(c: Byte) {
    || UPPER_A <= c <= UPPER_Z || LOWER_A <= c <= LOWER_Z || IsDigit(c)
    || c == MINUS || c == 95 || c == 46 || c == 33 || c == 126 || c == STAR || c == APOSTROPHE || c == 40 || c == 41
  }

  function EncodeByte(c: Byte): Bytes {
    if c == SPACE then [PERCENT, 50, 48]
    else if Unreserved(c) then [c]
    else [PERCENT] + Char2Hex(c)
  }

  function Encode(s: Bytes): Bytes {
    if s == [] then [] else EncodeByte(s[0]) + Encode(s[1..])
  }

  /** A percent sign with two hexadecimal digits after it. */
  predicate Coded(s: Bytes) {
    |s| >= 2 && s[0] == PERCENT && IsHexDigit(s[1]) && IsHexDigit(At(s, 2))
  }

  function Decode(s: Bytes): Bytes {
    if s == [] then []
    else if s[0] == PLUS then [SPACE] + Decode(s[1..])
    else if Coded(s) then [Hex2Char(s[1], s[2])] + Decode(s[3..])
    else [s[0]] + Decode(s[1..])
  }

  lemma DecodeByte(c: Byte, t: Bytes)
    ensures Decode(EncodeByte(c) + t) == [c] + Decode(t)
  {
    hide Hex2Char, HexDigit, Unreserved;
    HexRoundTrip(c);
    Marks(c);
    var e := EncodeByte(c);
    var s := e + t;
    if |e| == 1 {
      assert s[1..] == t && s[0] == c;
    } else {
      assert s[3..] == t && Coded(s) && Hex2Char(s[1], s[2]) == c;
    }
  }

  /** The bytes with a meaning in a form are never left as they are. */
  lemma Marks(c: Byte)
    ensures Unreserved(c) ==> c !in {PERCENT, PLUS, SPACE, AMPERSAND, EQUALS, SEMICOLON, QUOTE, COLON, CR, LF, NUL}
    ensures HexDigit(SPACE / 16) == 50 && HexDigit(SPACE % 16) == 48
  {
  }

  /** Every byte string comes back. */
  lemma {:induction false} DecodeUndoesEncode(s: Bytes)
    ensures Decode(Encode(s)) == s
  {
    if s != [] {
      hide EncodeByte, Decode;
      DecodeUndoesEncode(s[1..]);
      DecodeByte(s[0], Encode(s[1..]));
      assert [s[0]] + s[1..] == s;
    } else {
      assert Encode(s) == [];
    }
  }

  /** An encoded string holds percent signs and unreserved bytes only. */
  lemma {:induction false} EncodedBytes(s: Bytes)
    ensures forall c | c in Encode(s) :: c == PERCENT || Unreserved(c)
  {
    if s != [] {
      EncodedBytes(s[1..]);
      assert forall c | c in EncodeByte(s[0]) :: c == PERCENT || Unreserved(c);
      hide EncodeByte, Unreserved;
    }
  }

  // ---------- Any percent coding ----------

  /** The value of a hexadecimal digit in either case. */
  function DigitOf(c: Byte): nat
    requires IsHexDigit(c)
  {
    if '0' as int <= c <= '9' as int then c - '0' as int
    else if 'A' as int <= c <= 'F' as int then 10 + c - 'A' as int
    else 10 + c - 'a' as int
  }

  lemma OneDigit(c: Byte)
    requires IsHexDigit(c)
    ensures HexValue(c) == DigitOf(c) < 16
  {
  }

  lemma HexOf(high: Byte, low: Byte)
    requires IsHexDigit(high) && IsHexDigit(low)
    ensures DigitOf(high) < 16 && DigitOf(low) < 16 && Hex2Char(high, low) == 16 * DigitOf(high) + DigitOf(low)
  {
    hide HexValue, DigitOf, IsHexDigit;
    OneDigit(high);
    OneDigit(low);
  }

  lemma NulIsNoDigit()
    ensures !IsHexDigit(NUL)
  {
  }

  /** A plus sign is a space. */
  lemma DecodePlus(t: Bytes)
    ensures Decode(['+' as int] + t) == [' ' as int] + Decode(t)
  {
    assert (['+' as int] + t)[1..] == t;
  }

  /** A percent sign with two digits, in either case, is the byte that they name. */
  lemma DecodeCoded(high: Byte, low: Byte, t: Bytes)
    requires IsHexDigit(high) && IsHexDigit(low)
    ensures DigitOf(high) < 16 && DigitOf(low) < 16
    ensures Decode(['%' as int, high, low] + t) == [16 * DigitOf(high) + DigitOf(low)] + Decode(t)
  {
    hide Hex2Char, IsHexDigit, DigitOf;
    HexOf(high, low);
    assert (['%' as int, high, low] + t)[3..] == t;
  }

  /** Any other byte is itself, also a percent sign with anything else behind it. */
  lemma DecodeOther(c: Byte, t: Bytes)
    requires c != '+' as int && (c == '%' as int ==> |t| < 2 || !IsHexDigit(t[0]) || !IsHexDigit(t[1]))
    ensures Decode([c] + t) == [c] + Decode(t)
  {
    hide Hex2Char, IsHexDigit;
    NulIsNoDigit();
    assert ([c] + t)[1..] == t;
  }

  const UPPER_DIGITS: string := "0123456789ABCDEF"

  /** How each byte is written: the space like all others. */
  lemma EncodeForm(c: Byte)
    ensures EncodeByte(c) == if Unreserved(c) then [c] else ['%' as int, UPPER_DIGITS[c / 16] as int, UPPER_DIGITS[c % 16] as int]
    ensures Unreserved(c) <==>
            || 'a' as int <= c <= 'z' as int || 'A' as int <= c <= 'Z' as int || '0' as int <= c <= '9' as int
            || (c < 128 && c as char in "-_.!~*'()")
  {
    assert forall d | 0 <= d < 16 :: UPPER_DIGITS[d] as int == HexDigit(d);
  }

  /** Only the empty string is encoded as the empty string. */
  lemma EncodeEmpty(s: Bytes)
    ensures Encode(s) == [] <==> s == []
  {
  }

  // ---------- The loops ----------

  /** `percent_encode`. */
  method PercentEncode(src: Bytes) returns (result: Bytes)
    ensures result == Encode(src)
  {
    hide Encode, Unreserved, HexDigit;
    result := [];
    var iter := 0;
    assert src[0..] == src;
    while iter != |src|
      invariant 0 <= iter <= |src|
      invariant result + Encode(src[iter..]) == Encode(src)
    {
      var c := src[iter];
      EncodeStep(src, iter, result);
      if c == SPACE {
        result := result + [PERCENT, 50, 48];
      } else if Unreserved(c) {
        result := result + [c];
      } else {
        result := result + ([PERCENT] + Char2Hex(c));
      }
      iter := iter + 1;
    }
    EncodeEmpty(src[iter..]);
  }

  lemma EncodeStep(src: Bytes, i: nat, result: Bytes)
    requires i < |src|
    ensures result + Encode(src[i..]) == result + EncodeByte(src[i]) + Encode(src[i + 1..])
  {
    hide EncodeByte;
    assert src[i..][1..] == src[i + 1..];
  }

  /** `percent_decode`. */
  method PercentDecode(src: Bytes) returns (result: Bytes)
    ensures result == Decode(src)
  {
    hide Decode, Hex2Char, IsHexDigit;
    result := [];
    var iter := 0;
    assert src[0..] == src;
    NulIsNoDigit();
    while iter != |src|
      invariant 0 <= iter <= |src|
      invariant result + Decode(src[iter..]) == Decode(src)
    {
      DecodeStep(src, iter, result);
      if src[iter] == PLUS {
        result := result + [SPACE];
      } else if src[iter] == PERCENT {
        if |src| - iter >= 2 && IsHexDigit(At(src, iter + 1)) && IsHexDigit(At(src, iter + 2)) {
          result := result + [Hex2Char(src[iter + 1], src[iter + 2])];
          iter := iter + 2;
        } else {
          result := result + [PERCENT];
        }
      } else {
        result := result + [src[iter]];
      }
      iter := iter + 1;
    }
    DecodeNothing(src[iter..]);
  }

  lemma DecodeNothing(s: Bytes)
    requires s == []
    ensures Decode(s) == []
  {
  }

  lemma DecodeStep(src: Bytes, i: nat, result: Bytes)
    requires i < |src|
    ensures src[i] == PLUS ==> result + Decode(src[i..]) == result + [SPACE] + Decode(src[i + 1..])
    ensures var coded := src[i] == PERCENT && i + 2 < |src| && IsHexDigit(src[i + 1]) && IsHexDigit(src[i + 2]);
            && (coded ==> result + Decode(src[i..]) == result + [Hex2Char(src[i + 1], src[i + 2])] + Decode(src[i + 3..]))
            && (!coded && src[i] != PLUS ==> result + Decode(src[i..]) == result + [src[i]] + Decode(src[i + 1..]))
  {
    hide Hex2Char, IsHexDigit;
    NulIsNoDigit();
    var s := src[i..];
    assert s[1..] == src[i + 1..];
    if |s| > 2 {
      assert s[3..] == src[i + 3..];
    }
  }
}
