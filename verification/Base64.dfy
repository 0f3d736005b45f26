/** The base64 coding of `src/utility.cpp` (section 4 of RFC 4648, with padding). */
module Base64 {
  import opened ByteStrings

  /** The truncation of `std::string::npos` to an unsigned char. */
  const NOT_FOUND: Byte := 255

  /** The alphabet. */
  function Char64(d: nat): (c: Byte)
    requires d < 64
    ensures IsBase64(c) && Value64(c) == d
  {
    if d < 26 then UPPER_A + d
    else if d < 52 then LOWER_A + d - 26
    else if d < 62 then ZERO + d - 52
    else if d == 62 then PLUS else SLASH
  }

  const UPPER: string := "ABCDEFGHIJKLMNOPQRSTUVWXYZ"
  const LOWER: string := "abcdefghijklmnopqrstuvwxyz"
  const OTHER: string := "0123456789+/"

  lemma UpperAt(d: nat)
    requires d < 26
    ensures UPPER[d] as int == 'A' as int + d
  {
  }

  lemma LowerAt(d: nat)
    requires d < 26
    ensures LOWER[d] as int == 'a' as int + d
  {
  }

  lemma OtherAt(d: nat)
    requires d < 12
    ensures OTHER[d] as int == if d < 10 then '0' as int + d else if d == 10 then '+' as int else '/' as int
  {
  }

  /** The alphabet of section 4 of RFC 4648. */
  lemma Alphabet(d: nat)
    requires d < 64
    ensures |UPPER| == |LOWER| == 26 && |OTHER| == 12
    ensures Char64(d) == (if d < 26 then UPPER[d] else if d < 52 then LOWER[d - 26] else OTHER[d - 52]) as int
  {
    if d < 26 {
      UpperAt(d);
    } else if d < 52 {
      LowerAt(d - 26);
    } else {
      OtherAt(d - 52);
    }
  }

  predicate IsBase64(c: Byte) {
    || UPPER_A <= c < UPPER_A + 26 || LOWER_A <= c < LOWER_A + 26 || IsDigit(c) || c == PLUS || c == SLASH
  }

  /** The place of a byte in the alphabet, as an unsigned char. */
  function Value64(c: Byte): (d: Byte)
    ensures IsBase64(c) ==> d < 64
    ensures !IsBase64(c) ==> d == NOT_FOUND
  {
    if UPPER_A <= c < UPPER_A + 26 then c - UPPER_A
    else if LOWER_A <= c < LOWER_A + 26 then c - LOWER_A + 26
    else if IsDigit(c) then c - ZERO + 52
    else if c == PLUS then 62
    else if c == SLASH then 63
    else NOT_FOUND
  }

  // ---------- Encoding ----------

  /** Three bytes as four digits. */
  function Digits(a: Byte, b: Byte, c: Byte): (d: seq<nat>)
    ensures |d| == 4 && forall i | 0 <= i < 4 :: d[i] < 64
  {
    [a / 4, (a % 4) * 16 + b / 16, (b % 16) * 4 + c / 64, c % 64]
  }

  /** The first `n` digits of three bytes, as characters. */
  function Chars(a: Byte, b: Byte, c: Byte, n: nat): (r: Bytes)
    requires n <= 4
    ensures |r| == n
  {
    var d := Digits(a, b, c);
    [Char64(d[0]), Char64(d[1]), Char64(d[2]), Char64(d[3])][..n]
  }

  function Encode(s: Bytes): Bytes {
    if s == [] then []
    else if |s| == 1 then Chars(s[0], NUL, NUL, 2) + [EQUALS, EQUALS]
    else if |s| == 2 then Chars(s[0], s[1], NUL, 3) + [EQUALS]
    else Chars(s[0], s[1], s[2], 4) + Encode(s[3..])
  }

  /** Three bytes and their four digits are the same number. */
  lemma SameNumber(a: Byte, b: Byte, c: Byte)
    ensures var d := Digits(a, b, c);
            ((d[0] * 64 + d[1]) * 64 + d[2]) * 64 + d[3] == (a * 256 + b) * 256 + c
  {
  }

  /** The encoding has four characters for every three bytes begun. */
  lemma {:induction false} EncodedLength(s: Bytes)
    ensures |Encode(s)| == 4 * ((|s| + 2) / 3)
  {
    hide Chars;
    if |s| > 2 {
      EncodedLength(s[3..]);
    }
  }

  // ---------- Decoding ----------

  /** Four digits as three bytes; the sums wrap like unsigned chars. */
  function Merge(a: Byte, b: Byte, c: Byte, d: Byte): (r: Bytes)
    ensures |r| == 3
  {
    [(a * 4 + (b / 16) % 4) % 256, ((b % 16) * 16 + (c / 4) % 16) % 256, ((c % 4) * 64 + d) % 256]
  }

  /** Four characters as three bytes. */
  function Octets(w: Byte, x: Byte, y: Byte, z: Byte): (r: Bytes)
    ensures |r| == 3
  {
    Merge(Value64(w), Value64(x), Value64(y), Value64(z))
  }

  /** The characters up to the first one outside the alphabet. */
  function Leading(s: Bytes): (r: Bytes)
    ensures r <= s && forall c | c in r :: IsBase64(c)
    ensures |r| < |s| ==> !IsBase64(s[|r|])
  {
    if s == [] || !IsBase64(s[0]) then [] else [s[0]] + Leading(s[1..])
  }

  /** Groups of four; a shorter last group is filled with NULs, and gives one byte less than it has characters. */
  function Groups(s: Bytes): Bytes {
    if s == [] then []
    else if |s| == 1 then Octets(s[0], NUL, NUL, NUL)[..0]
    else if |s| == 2 then Octets(s[0], s[1], NUL, NUL)[..1]
    else if |s| == 3 then Octets(s[0], s[1], s[2], NUL)[..2]
    else Octets(s[0], s[1], s[2], s[3]) + Groups(s[4..])
  }

  function Decode(s: Bytes): Bytes {
    Groups(Leading(s))
  }

  // ---------- Decoding undoes encoding ----------

  /** The characters of the encoding without its padding. */
  function Unpadded(s: Bytes): (r: Bytes)
    ensures forall c | c in r :: IsBase64(c)
  {
    if s == [] then []
    else if |s| == 1 then Chars(s[0], NUL, NUL, 2)
    else if |s| == 2 then Chars(s[0], s[1], NUL, 3)
    else Chars(s[0], s[1], s[2], 4) + Unpadded(s[3..])
  }

  function Padding(n: nat): Bytes {
    if n % 3 == 1 then [EQUALS, EQUALS] else if n % 3 == 2 then [EQUALS] else []
  }

  lemma {:induction false} EncodePads(s: Bytes)
    ensures Encode(s) == Unpadded(s) + Padding(|s|)
  {
    hide Chars;
    if |s| > 2 {
      EncodePads(s[3..]);
      assert Padding(|s| - 3) == Padding(|s|);
      hide Padding;
      var chars := Chars(s[0], s[1], s[2], 4);
      assert chars + (Unpadded(s[3..]) + Padding(|s|)) == chars + Unpadded(s[3..]) + Padding(|s|);
    }
  }

  lemma {:induction false} LeadingOf(p: Bytes, t: Bytes)
    requires forall c | c in p :: IsBase64(c)
    requires t == [] || !IsBase64(t[0])
    ensures Leading(p + t) == p
  {
    if p != [] {
      assert (p + t)[1..] == p[1..] + t;
      LeadingOf(p[1..], t);
    }
  }

  lemma Halves(hi: nat, lo: nat)
    ensures lo < 16 ==> (hi * 16 + lo) / 16 == hi && (hi * 16 + lo) % 16 == lo
    ensures lo < 4 ==> (hi * 4 + lo) / 4 == hi && (hi * 4 + lo) % 4 == lo
  {
  }

  lemma MergeDigits(a: Byte, b: Byte, c: Byte)
    ensures var d := Digits(a, b, c); Merge(d[0], d[1], d[2], d[3]) == [a, b, c]
  {
    var a1, a0, b1, b0, c1, c0 := a / 4, a % 4, b / 16, b % 16, c / 64, c % 64;
    assert a == a1 * 4 + a0 && b == b1 * 16 + b0 && c == c1 * 64 + c0;
    Halves(a0, b1);
    Halves(b0, c1);
    var d := Digits(a, b, c);
    assert d == [a1, a0 * 16 + b1, b0 * 4 + c1, c0];
    MergeOf(a1, a0, b1, b0, c1, c0);
  }

  lemma MergeOf(a1: nat, a0: nat, b1: nat, b0: nat, c1: nat, c0: nat)
    requires a1 < 64 && a0 < 4 && b1 < 16 && b0 < 16 && c1 < 4 && c0 < 64
    ensures Merge(a1, a0 * 16 + b1, b0 * 4 + c1, c0) == [a1 * 4 + a0, b1 * 16 + b0, c1 * 64 + c0]
  {
    Halves(a0, b1);
    Halves(b0, c1);
  }

  lemma OctetsOfChars(a: Byte, b: Byte, c: Byte)
    ensures var r := Chars(a, b, c, 4); Octets(r[0], r[1], r[2], r[3]) == [a, b, c]
  {
    hide Digits, Char64, Value64, Merge;
    MergeDigits(a, b, c);
  }

  /** The first bytes depend on the first digits only. */
  lemma MergePrefix(a: Byte, b: Byte, c: Byte, d: Byte, c': Byte, d': Byte)
    ensures Merge(a, b, c, d)[..1] == Merge(a, b, c', d')[..1]
    ensures Merge(a, b, c, d)[..2] == Merge(a, b, c, d')[..2]
  {
  }

  /** In the tails the NULs that fill the group, and the wrapped place of a NUL, do not reach the result. */
  lemma OctetsOfTail(a: Byte, b: Byte)
    ensures var r := Chars(a, NUL, NUL, 2); Octets(r[0], r[1], NUL, NUL)[..1] == [a]
    ensures var r := Chars(a, b, NUL, 3); Octets(r[0], r[1], r[2], NUL)[..2] == [a, b]
  {
    hide Digits, Char64, Value64, Merge;
    MergeDigits(a, NUL, NUL);
    MergeDigits(a, b, NUL);
    var d := Digits(a, NUL, NUL);
    MergePrefix(d[0], d[1], d[2], d[3], Value64(NUL), Value64(NUL));
    var e := Digits(a, b, NUL);
    MergePrefix(e[0], e[1], e[2], e[3], e[2], Value64(NUL));
  }

  lemma {:induction false} GroupsOfUnpadded(s: Bytes)
    ensures Groups(Unpadded(s)) == s
  {
    if |s| == 1 {
      OctetsOfTail(s[0], NUL);
      hide Octets, Chars;
    } else if |s| == 2 {
      OctetsOfTail(s[0], s[1]);
      hide Octets, Chars;
    } else if |s| > 2 {
      OctetsOfChars(s[0], s[1], s[2]);
      hide Octets, Chars;
      GroupsOfUnpadded(s[3..]);
      var r := Chars(s[0], s[1], s[2], 4);
      assert Unpadded(s)[4..] == Unpadded(s[3..]);
      assert s == [s[0], s[1], s[2]] + s[3..];
    }
  }

  /** Every byte string comes back. */
  lemma DecodeUndoesEncode(s: Bytes)
    ensures Decode(Encode(s)) == s
  {
    hide Leading, Groups, Unpadded, Encode;
    EncodePads(s);
    LeadingOf(Unpadded(s), Padding(|s|));
    GroupsOfUnpadded(s);
  }

  /** The padding may be missing, and whatever stands behind the alphabet is ignored. */
  lemma DecodeIgnores(s: Bytes, t: Bytes)
    requires t == [] || !IsBase64(t[0])
    ensures Decode(Unpadded(s) + t) == s
  {
    hide Leading, Groups, Unpadded;
    LeadingOf(Unpadded(s), t);
    GroupsOfUnpadded(s);
  }

  // ---------- The loops ----------

  /** The last group, of one or two bytes. */
  method EncodeTail(group: array<Byte>, first: nat) returns (ret: Bytes)
    requires group.Length == 3 && 1 <= first < 3
    modifies group
    ensures ret == Encode(old(group[..first]))
  {
    hide Chars;
    var i := first;
    ghost var tail := group[..i];
    for j := i to 3
      invariant group[..i] == tail
      invariant forall l | i <= l < j :: group[l] == NUL
    {
      group[j] := NUL;
    }
    assert tail[0] == group[0] && (i == 2 ==> tail[1] == group[1]);
    ret := Chars(group[0], group[1], group[2], i + 1);
    while i < 3
      invariant 1 <= i <= 3
      invariant ret + (if i == 1 then [EQUALS, EQUALS] else if i == 2 then [EQUALS] else []) == Encode(tail)
    {
      ret := ret + [EQUALS];
      i := i + 1;
    }
  }

  /** `base64_encode`. */
  method Base64Encode(s: Bytes) returns (ret: Bytes)
    ensures ret == Encode(s)
  {
    hide Chars, Encode;
    ret := [];
    var i, k := 0, 0;
    var group := new Byte[3](_ => NUL);
    assert s[0..] == s;
    while k < |s|
      invariant 0 <= i < 3 && i <= k <= |s|
      invariant group[..i] == s[k - i..k]
      invariant ret + Encode(s[k - i..]) == Encode(s)
    {
      group[i] := s[k];
      k := k + 1;
      i := i + 1;
      GroupGrows(s, group, k, i);
      if i == 3 {
        EncodeStep(s, k - 3, ret);
        ret := ret + Chars(group[0], group[1], group[2], 4);
        i := 0;
      }
    }
    assert s[k - i..] == group[..i];
    if i != 0 {
      var tail := EncodeTail(group, i);
      ret := ret + tail;
    } else {
      EncodeNothing(s[k..]);
    }
  }

  lemma GroupGrows(s: Bytes, group: array<Byte>, k: nat, i: nat)
    requires 1 <= i <= group.Length && i <= k <= |s| && group[..i - 1] == s[k - i..k - 1] && group[i - 1] == s[k - 1]
    ensures group[..i] == s[k - i..k]
    ensures forall j | 0 <= j < i :: group[j] == s[k - i + j]
  {
    assert group[..i] == group[..i - 1] + [group[i - 1]];
    forall j | 0 <= j < i - 1
      ensures group[j] == s[k - i + j]
    {
      assert group[..i - 1][j] == s[k - i..k - 1][j];
    }
  }

  lemma EncodeNothing(s: Bytes)
    requires s == []
    ensures Encode(s) == []
  {
  }

  lemma EncodeStep(s: Bytes, k: nat, ret: Bytes)
    requires k + 3 <= |s|
    ensures ret + Encode(s[k..]) == ret + Chars(s[k], s[k + 1], s[k + 2], 4) + Encode(s[k + 3..])
  {
    hide Chars;
    assert s[k..][3..] == s[k + 3..];
  }

  /** Each character of a group is replaced by its place in the alphabet. */
  method LookUp(group: array<Byte>)
    requires group.Length == 4
    modifies group
    ensures forall j | 0 <= j < 4 :: group[j] == Value64(old(group[j]))
  {
    hide Value64;
    for i := 0 to 4
      invariant forall j | 0 <= j < i :: group[j] == Value64(old(group[j]))
      invariant forall j | i <= j < 4 :: group[j] == old(group[j])
    {
      group[i] := Value64(group[i]);
    }
  }

  /** The last group, of fewer than four characters: NULs take the place of those that are missing. */
  method DecodeTail(group: array<Byte>, i: nat) returns (ret: Bytes)
    requires group.Length == 4 && 1 <= i < 4
    modifies group
    ensures ret == Groups(old(group[..i]))
  {
    hide Value64, Merge;
    ghost var tail := group[..i];
    for j := i to 4
      invariant group[..i] == tail
      invariant forall l | i <= l < j :: group[l] == NUL
    {
      group[j] := NUL;
    }
    assert forall l | 0 <= l < i :: group[l] == tail[l];
    LookUp(group);
    ret := Merge(group[0], group[1], group[2], group[3])[..i - 1];
  }

  method DecodeGroup(group: array<Byte>) returns (ret: Bytes)
    requires group.Length == 4
    modifies group
    ensures ret == Octets(old(group[0]), old(group[1]), old(group[2]), old(group[3]))
  {
    hide Value64, Merge;
    LookUp(group);
    ret := Merge(group[0], group[1], group[2], group[3]);
  }

  /** `base64_decode`. */
  method Base64Decode(s: Bytes) returns (ret: Bytes)
    ensures ret == Decode(s)
  {
    hide Value64, IsBase64, Octets, Groups, Leading;
    ret := [];
    ghost var leading := Leading(s);
    var i, k := 0, 0;
    var group := new Byte[4](_ => NUL);
    NotInAlphabet();
    assert leading[0..] == leading;
    while k < |s| && s[k] != EQUALS && IsBase64(s[k])
      invariant 0 <= i < 4 && i <= k <= |leading|
      invariant group[..i] == leading[k - i..k]
      invariant ret + Groups(leading[k - i..]) == Groups(leading)
      decreases |s| - k
    {
      group[i] := s[k];
      k := k + 1;
      i := i + 1;
      GroupGrows(leading, group, k, i);
      if i == 4 {
        DecodeStep(leading, k - 4, ret);
        var octets := DecodeGroup(group);
        ret := ret + octets;
        i := 0;
      }
    }
    assert leading[k - i..] == group[..i];
    if i != 0 {
      var tail := DecodeTail(group, i);
      ret := ret + tail;
    } else {
      DecodeNothing(leading[k..]);
    }
  }

  lemma NotInAlphabet()
    ensures !IsBase64(EQUALS)
  {
  }

  lemma DecodeNothing(s: Bytes)
    requires s == []
    ensures Groups(s) == []
  {
  }

  lemma DecodeStep(s: Bytes, k: nat, ret: Bytes)
    requires k + 4 <= |s|
    ensures ret + Groups(s[k..]) == ret + Octets(s[k], s[k + 1], s[k + 2], s[k + 3]) + Groups(s[k + 4..])
  {
    hide Octets;
    assert s[k..][4..] == s[k + 4..];
  }
}
