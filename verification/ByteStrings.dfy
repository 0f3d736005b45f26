/** Bytes, byte strings and the few facts about sequences that the other modules share. */
module ByteStrings {
  /** A C `char`, read as an unsigned byte. */
  type Byte = b: int | 0 <= b < 256

  type Bytes = seq<Byte>

  datatype Option<+T> = None | Some(value: T)

  const NUL: Byte := 0
  const BEL: Byte := 7
  const BS: Byte := 8
  const TAB: Byte := 9
  const LF: Byte := 10
  const CR: Byte := 13
  const SPACE: Byte := 32
  const QUOTE: Byte := 34
  const PERCENT: Byte := 37
  const AMPERSAND: Byte := 38
  const APOSTROPHE: Byte := 39
  const STAR: Byte := 42
  const PLUS: Byte := 43
  const MINUS: Byte := 45
  const SLASH: Byte := 47
  const ZERO: Byte := 48
  const NINE: Byte := 57
  const COLON: Byte := 58
  const SEMICOLON: Byte := 59
  const EQUALS: Byte := 61
  const UPPER_A: Byte := 65
  const UPPER_F: Byte := 70
  const UPPER_Z: Byte := 90
  const BACKSLASH: Byte := 92
  const LOWER_A: Byte := 97
  const LOWER_F: Byte := 102
  const LOWER_Z: Byte := 122
  const DOLLAR: Byte := 36

  const CRLF: Bytes := [CR, LF]

  predicate IsDigit(c: Byte) {
    ZERO <= c <= NINE
  }

  predicate IsHexDigit(c: Byte) {
    IsDigit(c) || LOWER_A <= c <= LOWER_F || UPPER_A <= c <= UPPER_F
  }

  /** `isspace` in the C locale. */
  predicate IsSpace(c: Byte) {
    c == SPACE || 9 <= c <= 13
  }

  function SkipSpaces(s: Bytes): (r: Bytes)
    ensures |r| <= |s| && (r != [] ==> !IsSpace(r[0]))
  {
    if s != [] && IsSpace(s[0]) then SkipSpaces(s[1..]) else s
  }

  /** The byte at `i` of a string that ends with a NUL. */
  function At(s: Bytes, i: nat): Byte
    requires i <= |s|
  {
    if i < |s| then s[i] else NUL
  }

  /** The concatenation of a list of byte strings. */
  function Concat(parts: seq<Bytes>): Bytes {
    if parts == [] then [] else parts[0] + Concat(parts[1..])
  }

  lemma {:induction false} ConcatAppend(front: seq<Bytes>, back: seq<Bytes>)
    ensures Concat(front + back) == Concat(front) + Concat(back)
  {
    if front == [] {
      assert front + back == back;
    } else {
      assert (front + back)[1..] == front[1..] + back;
      ConcatAppend(front[1..], back);
    }
  }

  lemma ConcatSnoc(parts: seq<Bytes>, i: nat)
    requires i < |parts|
    ensures Concat(parts[..i + 1]) == Concat(parts[..i]) + parts[i]
  {
    assert parts[..i + 1] == parts[..i] + [parts[i]];
    ConcatAppend(parts[..i], [parts[i]]);
    assert Concat([parts[i]]) == parts[i] + Concat([]);
    assert parts[i] + [] == parts[i];
  }

  /** Dropping from the front commutes with appending at the back. */
  lemma DropAppend<T>(s: seq<T>, t: seq<T>, k: nat)
    requires k <= |s|
    ensures (s + t)[k..] == s[k..] + t
    ensures (s + t)[..k] == s[..k]
  {
  }

  /** The bytes of a text. */
  predicate Spells(s: Bytes, text: string) {
    |s| == |text| && forall i | 0 <= i < |s| :: s[i] == text[i] as int
  }
}
