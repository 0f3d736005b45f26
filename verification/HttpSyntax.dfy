/** Character classes and numbers of the HTTP request parser. */
module HttpSyntax {
  import opened ByteStrings

  /** `is_char`: a `char` above 127 is negative and therefore none. */
  predicate IsChar(c: Byte) {
    c <= 127
  }

  predicate IsCtl(c: Byte) {
    c <= 31 || c == 127
  }

  /** The separators of section 2.2 of RFC 2616. */
  predicate IsTspecial(c: Byte) {
    c in {40, 41, 60, 62, 64, COMMA, SEMICOLON, COLON, BACKSLASH, QUOTE, SLASH, 91, 93, QUESTION, EQUALS, 123, 125, SPACE, TAB}
  }

  const COMMA: Byte := 44
  const QUESTION: Byte := 63
  const DOT: Byte := 46

  /** A byte of a token. */
  predicate IsTokenChar(c: Byte) {
    IsChar(c) && !IsCtl(c) && !IsTspecial(c)
  }

  const MARKS: string := "!#$%&'*+-.^_`|~"
  const SEPARATORS: string := "()<>@,;:\\\"/[]?={} \t"

  /** The token bytes are those of section 3.2.6 of RFC 7230: letters, digits and fifteen marks. */
  lemma TokenBytes(c: Byte)
    ensures IsTokenChar(c) <==>
            || 'a' as int <= c <= 'z' as int || 'A' as int <= c <= 'Z' as int || '0' as int <= c <= '9' as int
            || (c < 128 && c as char in MARKS)
  {
  }

  /** Below 128, every byte is a token byte, a separator or a control byte, and only the tab is two of them. */
  lemma ByteClasses(c: Byte)
    ensures IsTspecial(c) <==> c < 128 && c as char in SEPARATORS
    ensures IsCtl(c) <==> c < 128 && !IsTokenChar(c) && (!IsTspecial(c) || c == '\t' as int)
  {
  }

  // ---------- strtol with base 0 ----------

  /** The value of a digit or letter as a digit; 36 for any other byte. */
  function DigitValue(c: Byte): nat {
    if ZERO <= c <= NINE then c - ZERO
    else if 97 <= c <= 122 then c - 97 + 10
    else if 65 <= c <= 90 then c - 65 + 10
    else 36
  }

  function Magnitude(s: Bytes, base: nat, v: nat): nat {
    if s == [] || DigitValue(s[0]) >= base then v else Magnitude(s[1..], base, v * base + DigitValue(s[0]))
  }

  predicate HasHexPrefix(s: Bytes) {
    |s| >= 3 && s[0] == ZERO && (s[1] == 120 || s[1] == 88) && DigitValue(s[2]) < 16
  }

  function Unsigned(s: Bytes): nat {
    if HasHexPrefix(s) then Magnitude(s[2..], 16, 0)
    else if s != [] && s[0] == ZERO then Magnitude(s, 8, 0)
    else Magnitude(s, 10, 0)
  }

  const LONG_MAX: int := 0x7FFF_FFFF_FFFF_FFFF

  /** `strtol(s, nullptr, 0)` with a 64-bit `long` */
  function StrToL(s: Bytes): int {
    var t := SkipSpaces(s);
    var negative := t != [] && t[0] == MINUS;
    var signed := negative || (t != [] && t[0] == PLUS);
    var m: int := Unsigned(if signed then t[1..] else t);
    if negative then (if m > LONG_MAX + 1 then -LONG_MAX - 1 else -m)
    else if m > LONG_MAX then LONG_MAX else m
  }

  const TWO_31: int := 0x8000_0000
  const TWO_32: int := 0x1_0000_0000

  /** The conversion of a `long` to an `int`, which keeps the low 32 bits. */
  function ToInt(v: int): (r: int)
    ensures -TWO_31 <= r < TWO_31
    ensures -TWO_31 <= v < TWO_31 ==> r == v
  {
    var low := v % TWO_32;
    if low < TWO_31 then low else low - TWO_32
  }
}
