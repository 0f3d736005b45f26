/** Searching in byte strings, as `memcmp` and `std::string::find` do, and what lies between two matches. */
module ByteSearch {
  import opened ByteStrings

  /** `sep` stands at `j` in `s`. */
  predicate OccursAt(s: Bytes, sep: Bytes, j: nat) {
    j + |sep| <= |s| && s[j..j + |sep|] == sep
  }

  /** The first place, from `j` on, where `sep` stands in `s`. */
  function Find(s: Bytes, sep: Bytes, j: nat): (r: Option<nat>)
    ensures r.Some? ==> r.value >= j && OccursAt(s, sep, r.value) && forall i: nat | j <= i < r.value :: !OccursAt(s, sep, i)
    ensures r.None? ==> forall i: nat | j <= i :: !OccursAt(s, sep, i)
    decreases |s| - j
  {
    if j + |sep| > |s| then None
    else if OccursAt(s, sep, j) then Some(j)
    else Find(s, sep, j + 1)
  }

  lemma OccursFits(s: Bytes, sep: Bytes, j: nat)
    requires OccursAt(s, sep, j)
    ensures j + |sep| <= |s|
  {
  }

  lemma OccursShift(s: Bytes, sep: Bytes, start: nat, i: nat)
    requires start <= |s|
    ensures OccursAt(s[start..], sep, i) <==> OccursAt(s, sep, start + i)
  {
    if start + i + |sep| <= |s| {
      assert s[start..][i..i + |sep|] == s[start + i..start + i + |sep|];
    }
  }

  /** A match in a beginning of a string is a match in the string. */
  lemma SliceOfPrefix(s: Bytes, sep: Bytes, j: nat, i: nat)
    requires sep != [] && j <= |s| && OccursAt(s[..j], sep, i)
    ensures OccursAt(s, sep, i) && i < j
  {
    assert s[..j][i..i + |sep|] == s[i..i + |sep|];
  }

  /** A match that fits a beginning of the string is a match in it, and a match of a text is one of its beginning. */
  lemma OccursWithin(s: Bytes, sep: Bytes, d: Bytes, j: nat, i: nat)
    requires OccursAt(s, sep, i) && d <= sep && i + |d| <= j <= |s|
    ensures OccursAt(s[..j], d, i)
  {
    assert s[..j][i..i + |d|] == s[i..i + |sep|][..|d|];
  }

  /** A match puts each byte of the needle in its place. */
  lemma OccursByte(s: Bytes, sep: Bytes, j: nat, k: nat)
    requires OccursAt(s, sep, j) && k < |sep|
    ensures j + k < |s| && s[j + k] == sep[k]
  {
    assert s[j..j + |sep|][k] == s[j + k];
  }

  /** The first place, from `j` on, of a byte of `any`. */
  function FindFirstOf(s: Bytes, any: set<Byte>, j: nat): (r: Option<nat>)
    ensures r.Some? ==> j <= r.value < |s| && s[r.value] in any && forall i | j <= i < r.value :: s[i] !in any
    ensures r.None? ==> forall i | j <= i < |s| :: s[i] !in any
    decreases |s| - j
  {
    if j >= |s| then None
    else if s[j] in any then Some(j)
    else FindFirstOf(s, any, j + 1)
  }

  lemma {:induction false} FindFirstOfShift(s: Bytes, any: set<Byte>, start: nat, i: nat)
    requires start <= |s|
    ensures FindFirstOf(s, any, start + i) == match FindFirstOf(s[start..], any, i)
                                              case None => None
                                              case Some(k) => Some(start + k)
    decreases |s| - start - i
  {
    if start + i < |s| {
      FindFirstOfShift(s, any, start, i + 1);
    }
  }

  /** `extract_between`: what lies between the first match of one string and the next match of another. */
  function ExtractBetween(data: Bytes, sep1: Bytes, sep2: Bytes): (r: Bytes)
  {
    match Find(data, sep1, 0)
    case None => []
    case Some(i) =>
      OccursFits(data, sep1, i);
      var start := i + |sep1|;
      match Find(data, sep2, start)
      case None => []
      case Some(limit) =>
        OccursFits(data, sep2, limit);
        data[start..limit]
  }

  // ---------- Comparison without regard to case ----------

  /** `std::toupper` in the C locale. */
  function ToUpper(c: Byte): Byte {
    if 97 <= c <= 122 then c - 32 else c
  }

  predicate SamePrefix(s: Bytes, t: Bytes, n: nat) {
    n <= |s| && n <= |t| && forall i | 0 <= i < n :: ToUpper(s[i]) == ToUpper(t[i])
  }

  /** `strings_are_equal` for the first `n` bytes. */
  method StringsAreEqual(s1: Bytes, s2: Bytes, n: nat) returns (equal: bool)
    ensures equal == SamePrefix(s1, s2, n)
  {
    hide ToUpper;
    var good := n <= |s1| && n <= |s2|;
    var l1, l2 := if good then n else |s1|, if good then n else |s2|;
    var p := 0;
    while p != l1 && p != l2
      invariant 0 <= p <= l1 && p <= l2
      invariant forall i | 0 <= i < p :: ToUpper(s1[i]) == ToUpper(s2[i])
      decreases l1 - p
    {
      if ToUpper(s1[p]) != ToUpper(s2[p]) {
        return false;
      }
      p := p + 1;
    }
    return good;
  }
}
