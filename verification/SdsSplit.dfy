/** Splitting a string at a separator and joining the tokens again (`sds.c`). */
module SdsSplit {
  import opened ByteSearch
  import opened ByteStrings

  const INITIAL_SLOTS := 5

  /** The tokens of a string that is cut at every leftmost separator. */
  function Tokens(s: Bytes, sep: Bytes): seq<Bytes>
    requires sep != []
    decreases |s|
  {
    match Find(s, sep, 0)
    case None => [s]
    case Some(j) => [s[..j]] + Tokens(s[j + |sep|..], sep)
  }

  function Joined(tokens: seq<Bytes>, sep: Bytes): Bytes {
    if tokens == [] then []
    else if |tokens| == 1 then tokens[0]
    else tokens[0] + sep + Joined(tokens[1..], sep)
  }

  /** What `sdssplitlen` computes: a string of no bytes has no tokens. */
  function SplitOf(s: Bytes, sep: Bytes): seq<Bytes>
    requires sep != []
  {
    if s == [] then [] else Tokens(s, sep)
  }

  lemma TokensCut(s: Bytes, sep: Bytes, j: nat)
    requires sep != [] && j + |sep| <= |s| && Find(s, sep, 0) == Some(j)
    ensures Tokens(s, sep) == [s[..j]] + Tokens(s[j + |sep|..], sep)
  {
    hide Find, OccursAt;
  }

  lemma TokensNoCut(s: Bytes, sep: Bytes)
    requires sep != [] && Find(s, sep, 0) == None
    ensures Tokens(s, sep) == [s]
  {
    hide Find, OccursAt;
  }

  lemma HasTokens(s: Bytes, sep: Bytes)
    requires sep != []
    ensures |Tokens(s, sep)| > 0
  {
    hide Find, OccursAt;
  }

  // ---------- Splitting, then joining ----------

  lemma {:induction false} JoinTokens(s: Bytes, sep: Bytes)
    requires sep != []
    ensures Joined(Tokens(s, sep), sep) == s
    decreases |s|
  {
    match Find(s, sep, 0)
    case None =>
    case Some(j) =>
      var rest := s[j + |sep|..];
      JoinTokens(rest, sep);
      assert s == s[..j] + sep + rest;
      assert Tokens(s, sep)[1..] == Tokens(rest, sep);
      assert |Tokens(rest, sep)| > 0;
  }

  /** Splitting loses nothing, whatever the string and the separator. */
  lemma JoinUndoesSplit(s: Bytes, sep: Bytes)
    requires sep != []
    ensures Joined(SplitOf(s, sep), sep) == s
  {
    JoinTokens(s, sep);
  }

  lemma {:induction false} TokensClean(s: Bytes, sep: Bytes)
    requires sep != []
    ensures forall t | t in Tokens(s, sep) :: Find(t, sep, 0) == None
    decreases |s|
  {
    hide Find, Tokens, OccursAt;
    if Find(s, sep, 0).Some? {
      var j := Find(s, sep, 0).value;
      OccursFits(s, sep, j);
      TokensClean(s[j + |sep|..], sep);
      TokensCut(s, sep, j);
      NoneBefore(s, sep, j);
    } else {
      TokensNoCut(s, sep);
    }
  }

  lemma NoneBefore(s: Bytes, sep: Bytes, j: nat)
    requires sep != [] && j <= |s| && Find(s, sep, 0) == Some(j)
    ensures Find(s[..j], sep, 0) == None
  {
    hide OccursAt;
    if Find(s[..j], sep, 0).Some? {
      SliceOfPrefix(s, sep, j, Find(s[..j], sep, 0).value);
      assert false;
    }
  }

  /** No token contains the separator. */
  lemma NoTokenHasSeparator(s: Bytes, sep: Bytes, t: Bytes, j: nat)
    requires sep != [] && t in SplitOf(s, sep)
    ensures !OccursAt(t, sep, j)
  {
    TokensClean(s, sep);
    assert Find(t, sep, 0) == None;
  }

  // ---------- Joining, then splitting ----------

  /** In each token followed by the separator, and in the last token alone, the separator stands no earlier. */
  predicate Leftmost(tokens: seq<Bytes>, sep: Bytes) {
    && tokens != []
    && Find(tokens[|tokens| - 1], sep, 0) == None
    && forall i | 0 <= i < |tokens| - 1 :: Find(tokens[i] + sep, sep, 0) == Some(|tokens[i]|)
  }

  /** What comes after the first separator does not move it. */
  lemma FindExtends(t: Bytes, sep: Bytes, rest: Bytes)
    requires sep != []
    ensures Find(t + sep + rest, sep, 0) == Find(t + sep, sep, 0)
  {
    var u, v := t + sep, t + sep + rest;
    assert u[|t|..|t| + |sep|] == sep;
    assert OccursAt(u, sep, |t|);
    var j := Find(u, sep, 0).value;
    assert j <= |t|;
    forall i: nat | i <= j
      ensures OccursAt(u, sep, i) <==> OccursAt(v, sep, i)
    {
      assert u[i..i + |sep|] == v[i..i + |sep|];
    }
  }

  lemma LeftmostStep(tokens: seq<Bytes>, sep: Bytes)
    requires |tokens| > 1
    ensures Leftmost(tokens, sep) <==> Find(tokens[0] + sep, sep, 0) == Some(|tokens[0]|) && Leftmost(tokens[1..], sep)
  {
    hide Find;
    var rest := tokens[1..];
    assert forall i | 0 <= i < |rest| :: rest[i] == tokens[i + 1];
    if Leftmost(rest, sep) && Find(tokens[0] + sep, sep, 0) == Some(|tokens[0]|) {
      forall i | 0 <= i < |tokens| - 1
        ensures Find(tokens[i] + sep, sep, 0) == Some(|tokens[i]|)
      {
        assert i > 0 ==> tokens[i] == rest[i - 1];
      }
    }
  }

  /** The tokens of a string that starts with a token and a separator. */
  lemma TokensAfterFirst(t: Bytes, sep: Bytes, rest: Bytes)
    requires sep != []
    ensures var ts := Tokens(t + sep + rest, sep);
            |ts| > 0 && (ts[0] == t <==> Find(t + sep, sep, 0) == Some(|t|)) && (ts[0] == t ==> ts[1..] == Tokens(rest, sep))
  {
    hide Find, Tokens;
    var s := t + sep + rest;
    FindExtends(t, sep, rest);
    assert OccursAt(s, sep, |t|) by {
      assert s[|t|..|t| + |sep|] == sep;
    }
    var j := Find(s, sep, 0).value;
    TokensCut(s, sep, j);
    if j == |t| {
      assert s[..j] == t && s[j + |sep|..] == rest;
    } else {
      assert |s[..j]| == j;
    }
  }

  lemma {:induction false} TokensOfJoined(tokens: seq<Bytes>, sep: Bytes)
    requires sep != [] && tokens != []
    ensures Tokens(Joined(tokens, sep), sep) == tokens <==> Leftmost(tokens, sep)
  {
    hide Find, Tokens, Leftmost;
    if |tokens| > 1 {
      TokensOfJoined(tokens[1..], sep);
      TokensAfterFirst(tokens[0], sep, Joined(tokens[1..], sep));
      LeftmostStep(tokens, sep);
      SameFirst(Tokens(Joined(tokens, sep), sep), tokens);
    } else {
      TokensOne(tokens[0], sep);
      LeftmostOne(tokens, sep);
    }
  }

  lemma SameFirst(a: seq<Bytes>, b: seq<Bytes>)
    requires |a| > 0 && |b| > 0
    ensures a == b <==> a[0] == b[0] && a[1..] == b[1..]
  {
    if a[0] == b[0] && a[1..] == b[1..] {
      assert a == [a[0]] + a[1..] && b == [b[0]] + b[1..];
    }
  }

  lemma LeftmostOne(tokens: seq<Bytes>, sep: Bytes)
    requires |tokens| == 1
    ensures Leftmost(tokens, sep) <==> Find(tokens[0], sep, 0) == None
  {
    hide Find;
  }

  lemma TokensOne(s: Bytes, sep: Bytes)
    requires sep != []
    ensures Tokens(s, sep) == [s] <==> Find(s, sep, 0) == None
  {
    if Find(s, sep, 0).Some? {
      var j := Find(s, sep, 0).value;
      TokensCut(s, sep, j);
      HasTokens(s[j + |sep|..], sep);
    }
  }

  /** Splitting undoes joining exactly for these lists; the list of one empty token is not one of them. */
  lemma SplitUndoesJoin(tokens: seq<Bytes>, sep: Bytes)
    requires sep != []
    ensures SplitOf(Joined(tokens, sep), sep) == tokens <==> tokens == [] || (tokens != [[]] && Leftmost(tokens, sep))
  {
    if tokens != [] {
      TokensOfJoined(tokens, sep);
    }
  }

  /** With a separator of one byte it is enough, and needed, that no token holds that byte. */
  lemma OneByteSeparator(tokens: seq<Bytes>, c: Byte)
    ensures SplitOf(Joined(tokens, [c]), [c]) == tokens <==> tokens != [[]] && forall t | t in tokens :: c !in t
  {
    SplitUndoesJoin(tokens, [c]);
    if tokens != [] {
      forall i | 0 <= i < |tokens|
        ensures Find(tokens[i], [c], 0) == None <==> c !in tokens[i]
        ensures Find(tokens[i] + [c], [c], 0) == Some(|tokens[i]|) <==> c !in tokens[i]
      {
        FindByte(tokens[i], c);
        FindByte(tokens[i] + [c], c);
      }
    }
  }

  lemma FindByte(s: Bytes, c: Byte)
    ensures Find(s, [c], 0) == None <==> c !in s
    ensures Find(s, [c], 0).Some? ==> s[Find(s, [c], 0).value] == c && c !in s[..Find(s, [c], 0).value]
  {
    forall i: nat | i < |s|
      ensures OccursAt(s, [c], i) <==> s[i] == c
    {
      assert s[i..i + 1] == [s[i]];
    }
  }

  // ---------- The loops ----------

  lemma FindFromStart(s: Bytes, sep: Bytes, start: nat, j: nat)
    requires start <= j <= |s| && OccursAt(s, sep, j)
    requires forall i: nat | start <= i < j :: !OccursAt(s, sep, i)
    ensures Find(s[start..], sep, 0) == Some(j - start)
  {
    hide OccursAt;
    forall i: nat | i < j - start
      ensures !OccursAt(s[start..], sep, i)
    {
      OccursShift(s, sep, start, i);
    }
    OccursShift(s, sep, start, j - start);
  }

  /** A cut found by the loop is the next cut of the specification. */
  lemma CutHere(s: Bytes, sep: Bytes, start: nat, j: nat)
    requires sep != [] && start <= j && OccursAt(s, sep, j)
    requires forall i: nat | start <= i < j :: !OccursAt(s, sep, i)
    ensures Tokens(s[start..], sep) == [s[start..j]] + Tokens(s[j + |sep|..], sep)
  {
    hide *;
    OccursFits(s, sep, j);
    FindFromStart(s, sep, start, j);
    SliceOfSuffix(s, start, j, |sep|);
    TokensCutInto(s[start..], sep, j - start, s[start..j], s[j + |sep|..]);
  }

  lemma TokensCutInto(u: Bytes, sep: Bytes, k: nat, left: Bytes, right: Bytes)
    requires sep != [] && k + |sep| <= |u| && Find(u, sep, 0) == Some(k)
    requires left == u[..k] && right == u[k + |sep|..]
    ensures Tokens(u, sep) == [left] + Tokens(right, sep)
  {
    hide *;
    TokensCut(u, sep, k);
  }

  lemma SliceOfSuffix(s: Bytes, start: nat, j: nat, n: nat)
    requires start <= j && j + n <= |s|
    ensures |s[start..]| == |s| - start
    ensures s[start..][..j - start] == s[start..j] && s[start..][j - start + n..] == s[j + n..]
  {
  }

  lemma NoMoreCuts(s: Bytes, sep: Bytes, start: nat, j: nat)
    requires sep != [] && start <= |s| < j + |sep|
    requires forall i: nat | start <= i < j :: !OccursAt(s, sep, i)
    ensures Tokens(s[start..], sep) == [s[start..]]
  {
    hide OccursAt, Tokens;
    var u := s[start..];
    if Find(u, sep, 0).Some? {
      OccursShift(s, sep, start, Find(u, sep, 0).value);
      OccursFits(s, sep, start + Find(u, sep, 0).value);
      assert false;
    }
    TokensNoCut(u, sep);
  }

  /** `realloc`: the array of tokens is twice as long. */
  method Grow(tokens: array<Bytes>, elements: nat) returns (larger: array<Bytes>)
    requires elements <= tokens.Length
    ensures fresh(larger) && larger.Length == tokens.Length * 2 && larger[..elements] == tokens[..elements]
  {
    larger := new Bytes[tokens.Length * 2](_ => []);
    for i := 0 to elements
      invariant larger[..i] == tokens[..i]
    {
      larger[i] := tokens[i];
    }
  }

  lemma CutFound(s: Bytes, sep: Bytes, start: nat, j: nat)
    requires sep != [] && start <= j && j + |sep| <= |s|
    requires (|sep| == 1 && s[j] == sep[0]) || s[j..j + |sep|] == sep
    requires forall i: nat | start <= i < j :: !OccursAt(s, sep, i)
    ensures Tokens(s[start..], sep) == [s[start..j]] + Tokens(s[j + |sep|..], sep)
  {
    hide Find, Tokens, OccursAt;
    StandsAt(s, sep, j);
    CutHere(s, sep, start, j);
  }

  /** The comparison of the loop finds the separators. */
  lemma StandsAt(s: Bytes, sep: Bytes, j: nat)
    requires j + |sep| <= |s| && ((|sep| == 1 && s[j] == sep[0]) || s[j..j + |sep|] == sep)
    ensures OccursAt(s, sep, j)
  {
    if |sep| == 1 && s[j] == sep[0] {
      assert s[j..j + 1] == [s[j]] == sep;
    }
  }

  lemma CutMissed(s: Bytes, sep: Bytes, j: nat)
    requires sep != [] && j + |sep| <= |s| && s[j..j + |sep|] != sep
    ensures !OccursAt(s, sep, j)
  {
  }

  lemma Regroup(a: seq<Bytes>, x: Bytes, b: seq<Bytes>)
    ensures a + ([x] + b) == (a + [x]) + b
  {
  }

  method Store(room: array<Bytes>, elements: nat, token: Bytes) returns (count: nat)
    requires elements < room.Length
    modifies room
    ensures count == elements + 1 && room[..count] == old(room[..elements]) + [token]
  {
    room[elements] := token;
    count := elements + 1;
    assert room[..count] == room[..elements] + [token];
  }

  /** `sdssplitlen`, with its array of slots; null when the separator is empty. */
  method SplitLen(s: Bytes, sep: Bytes) returns (tokens: array?<Bytes>, count: nat)
    ensures tokens == null <==> sep == []
    ensures tokens != null ==> count <= tokens.Length && tokens[..count] == SplitOf(s, sep)
  {
    hide OccursAt, Tokens;
    if |sep| < 1 {
      return null, 0;
    }
    var slots := INITIAL_SLOTS;
    var elements, start, j := 0, 0, 0;
    var room := new Bytes[slots](_ => []);
    if |s| == 0 {
      return room, 0;
    }
    while j < |s| - (|sep| - 1)
      invariant 0 <= start <= j && start <= |s|
      invariant room.Length == slots && INITIAL_SLOTS <= slots && elements + 1 <= slots && fresh(room)
      invariant forall i: nat | start <= i < j :: !OccursAt(s, sep, i)
      invariant room[..elements] + Tokens(s[start..], sep) == Tokens(s, sep)
      decreases |s| - j
    {
      if slots < elements + 2 {
        slots := slots * 2;
        room := Grow(room, elements);
      }
      if (|sep| == 1 && s[j] == sep[0]) || s[j..j + |sep|] == sep {
        CutFound(s, sep, start, j);
        Regroup(room[..elements], s[start..j], Tokens(s[j + |sep|..], sep));
        elements := Store(room, elements, s[start..j]);
        start := j + |sep|;
        j := j + |sep| - 1; // skip the separator
      } else {
        CutMissed(s, sep, j);
      }
      j := j + 1;
    }
    NoMoreCuts(s, sep, start, j);
    elements := Store(room, elements, s[start..]);
    return room, elements;
  }

  lemma JoinedNone(sep: Bytes)
    ensures Joined([], sep) == []
  {
  }

  lemma JoinedStep(argv: seq<Bytes>, sep: Bytes, join: Bytes, j: nat)
    requires j < |argv|
    ensures join + Joined(argv[j..], sep) == join + argv[j] + (if j != |argv| - 1 then sep else []) + Joined(argv[j + 1..], sep)
  {
    assert argv[j..][1..] == argv[j + 1..];
    var t, rest := argv[j], Joined(argv[j + 1..], sep);
    if j != |argv| - 1 {
      assert join + (t + sep + rest) == join + t + sep + rest;
    }
  }

  /** `sdsjoinsds`. */
  method JoinSds(argv: seq<Bytes>, sep: Bytes) returns (join: Bytes)
    ensures join == Joined(argv, sep)
  {
    hide Joined;
    join := [];
    var j := 0;
    assert argv[0..] == argv;
    while j < |argv|
      invariant 0 <= j <= |argv|
      invariant Joined(argv, sep) == join + Joined(argv[j..], sep)
    {
      var t := argv[j];
      JoinedStep(argv, sep, join, j);
      join := join + t;
      if j != |argv| - 1 {
        join := join + sep;
      }
      j := j + 1;
    }
    assert argv[j..] == [];
    JoinedNone(sep);
  }
}
