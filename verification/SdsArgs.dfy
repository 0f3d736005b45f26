/** Quoted representations of byte strings, and lines of arguments, some of them quoted (`sds.c`). */
module SdsArgs {
  import opened ByteStrings

  const LOWER_B: Byte := 98
  const LOWER_N: Byte := 110
  const LOWER_R: Byte := 114
  const LOWER_T: Byte := 116
  const LOWER_X: Byte := 120

  function HexDigitToInt(c: Byte): (d: nat)
    ensures d < 16
  {
    if IsDigit(c) then c - ZERO
    else if LOWER_A <= c <= LOWER_F then c - LOWER_A + 10
    else if UPPER_A <= c <= UPPER_F then c - UPPER_A + 10
    else 0
  }

  /** One digit of `%02x`. */
  function HexDigit(d: nat): Byte
    requires d < 16
  {
    if d < 10 then ZERO + d else LOWER_A + d - 10
  }

  // ---------- Quoting ----------

  /** The bytes that stand for one byte between quotes. A NUL that is printed by `%c` ends the printed text at once. */
  function Escape(printable: Byte -> bool, c: Byte): Bytes {
    if c == BACKSLASH || c == QUOTE then [BACKSLASH, c]
    else if c == LF then [BACKSLASH, LOWER_N]
    else if c == CR then [BACKSLASH, LOWER_R]
    else if c == TAB then [BACKSLASH, LOWER_T]
    else if c == BEL then [BACKSLASH, LOWER_A]
    else if c == BS then [BACKSLASH, LOWER_B]
    else if printable(c) then (if c == NUL then [] else [c])
    else [BACKSLASH, LOWER_X, HexDigit(c / 16), HexDigit(c % 16)]
  }

  function Escaped(printable: Byte -> bool, p: Bytes): Bytes {
    if p == [] then [] else Escape(printable, p[0]) + Escaped(printable, p[1..])
  }

  function Repr(printable: Byte -> bool, p: Bytes): Bytes {
    [QUOTE] + Escaped(printable, p) + [QUOTE]
  }

  /** `sdscatrepr`, for any meaning of `isprint`. */
  method CatRepr(s: Bytes, p: Bytes, printable: Byte -> bool) returns (r: Bytes)
    ensures r == s + Repr(printable, p)
  {
    hide Escape;
    r := s + [QUOTE];
    var i := 0;
    assert p[0..] == p;
    while i < |p|
      invariant 0 <= i <= |p|
      invariant s + [QUOTE] + Escaped(printable, p) == r + Escaped(printable, p[i..])
    {
      var e := EscapeOne(p[i], printable);
      EscapedStep(printable, p, i, r);
      r := r + e;
      i := i + 1;
    }
    r := r + [QUOTE];
    assert s + Repr(printable, p) == s + [QUOTE] + Escaped(printable, p) + [QUOTE];
  }

  lemma EscapedStep(printable: Byte -> bool, p: Bytes, i: nat, r: Bytes)
    requires i < |p|
    ensures r + Escaped(printable, p[i..]) == r + Escape(printable, p[i]) + Escaped(printable, p[i + 1..])
  {
    hide Escape;
    assert p[i..][1..] == p[i + 1..];
  }

  /** The `switch` of `sdscatrepr`. */
  method EscapeOne(c: Byte, printable: Byte -> bool) returns (e: Bytes)
    ensures e == Escape(printable, c)
  {
    if c == BACKSLASH || c == QUOTE {
      e := [BACKSLASH, c];
    } else if c == LF {
      e := [BACKSLASH, LOWER_N];
    } else if c == CR {
      e := [BACKSLASH, LOWER_R];
    } else if c == TAB {
      e := [BACKSLASH, LOWER_T];
    } else if c == BEL {
      e := [BACKSLASH, LOWER_A];
    } else if c == BS {
      e := [BACKSLASH, LOWER_B];
    } else if printable(c) {
      e := if c == NUL then [] else [c];
    } else {
      e := [BACKSLASH, LOWER_X, HexDigit(c / 16), HexDigit(c % 16)];
    }
  }

  // ---------- Reading one argument ----------

  datatype Mode = Plain | Quoted | Single

  /** What a letter after a backslash stands for between quotes. */
  function Unescape(c: Byte): Byte {
    if c == LOWER_N then LF
    else if c == LOWER_R then CR
    else if c == LOWER_T then TAB
    else if c == LOWER_B then BS
    else if c == LOWER_A then BEL
    else c
  }

  /** The bytes that end an argument outside quotes: not all of the white space. */
  predicate EndsPlain(c: Byte) {
    c == SPACE || c == LF || c == CR || c == TAB
  }

  /** After a closing quote there is white space, or the line ends. */
  predicate ClosedBy(rest: Bytes) {
    rest == [] || IsSpace(rest[0])
  }

  predicate HexEscape(s: Bytes) {
    |s| >= 4 && s[0] == BACKSLASH && s[1] == LOWER_X && IsHexDigit(s[2]) && IsHexDigit(s[3])
  }

  /** The rest of an argument, and what of the line is left after it; none for unbalanced quotes. */
  function Token(mode: Mode, current: Bytes, s: Bytes): (r: Option<(Bytes, Bytes)>)
    ensures r.Some? ==> |r.value.1| <= |s|
    ensures r.Some? && s != [] && (mode != Plain || !EndsPlain(s[0])) ==> |r.value.1| < |s|
    decreases |s|
  {
    match mode
    case Quoted =>
      if HexEscape(s) then Token(Quoted, current + [HexDigitToInt(s[2]) * 16 + HexDigitToInt(s[3])], s[4..])
      else if |s| >= 2 && s[0] == BACKSLASH then Token(Quoted, current + [Unescape(s[1])], s[2..])
      else if s == [] then None
      else if s[0] == QUOTE then (if ClosedBy(s[1..]) then Some((current, s[1..])) else None)
      else Token(Quoted, current + [s[0]], s[1..])
    case Single =>
      if |s| >= 2 && s[0] == BACKSLASH && s[1] == APOSTROPHE then Token(Single, current + [APOSTROPHE], s[2..])
      else if s == [] then None
      else if s[0] == APOSTROPHE then (if ClosedBy(s[1..]) then Some((current, s[1..])) else None)
      else Token(Single, current + [s[0]], s[1..])
    case Plain =>
      if s == [] then Some((current, s))
      else if EndsPlain(s[0]) then Some((current, s[1..]))
      else if s[0] == QUOTE then Token(Quoted, current, s[1..])
      else if s[0] == APOSTROPHE then Token(Single, current, s[1..])
      else Token(Plain, current + [s[0]], s[1..])
  }

  /** The arguments of a line, or none when its quotes are unbalanced. */
  function Args(line: Bytes): Option<seq<Bytes>>
    decreases |line|
  {
    var s := SkipSpaces(line);
    if s == [] then Some([])
    else
      match Token(Plain, [], s)
      case None => None
      case Some((token, rest)) =>
        match Args(rest)
        case None => None
        case Some(tokens) => Some([token] + tokens)
  }

  // ---------- Reading undoes quoting ----------

  lemma HexRoundTrip(c: Byte)
    ensures var h, l := HexDigit(c / 16), HexDigit(c % 16);
            IsHexDigit(h) && IsHexDigit(l) && HexDigitToInt(h) * 16 + HexDigitToInt(l) == c
  {
  }

  /** What is left of a string: without its NULs, if NUL counts as printable. */
  function Kept(printable: Byte -> bool, p: Bytes): Bytes {
    if p == [] then [] else (if p[0] == NUL && printable(NUL) then [] else [p[0]]) + Kept(printable, p[1..])
  }

  /** Nothing is lost, if and only if there is no printable NUL in the string. */
  lemma {:induction false} KeptAll(printable: Byte -> bool, p: Bytes)
    ensures |Kept(printable, p)| <= |p|
    ensures Kept(printable, p) == p <==> !(printable(NUL) && NUL in p)
  {
    if p != [] {
      KeptAll(printable, p[1..]);
      assert p == [p[0]] + p[1..];
    }
  }

  /** One escaped byte is read back, whatever follows it. */
  lemma TokenEscape(printable: Byte -> bool, c: Byte, current: Bytes, t: Bytes)
    requires !(c == NUL && printable(NUL))
    ensures Token(Quoted, current, Escape(printable, c) + t) == Token(Quoted, current + [c], t)
  {
    hide Token, HexDigitToInt, HexDigit, IsHexDigit;
    HexRoundTrip(c);
    var e := Escape(printable, c);
    assert (e + t)[|e|..] == t;
    TokenQuoted(current, e + t);
  }

  lemma TokenQuoted(current: Bytes, s: Bytes)
    ensures HexEscape(s) ==>
              Token(Quoted, current, s) == Token(Quoted, current + [HexDigitToInt(s[2]) * 16 + HexDigitToInt(s[3])], s[4..])
    ensures |s| >= 2 && s[0] == BACKSLASH && s[1] != LOWER_X ==>
              Token(Quoted, current, s) == Token(Quoted, current + [Unescape(s[1])], s[2..])
    ensures |s| >= 1 && s[0] != BACKSLASH && s[0] != QUOTE ==>
              Token(Quoted, current, s) == Token(Quoted, current + [s[0]], s[1..])
    ensures |s| >= 1 && s[0] == QUOTE && ClosedBy(s[1..]) ==> Token(Quoted, current, s) == Some((current, s[1..]))
  {
    hide HexDigitToInt, IsHexDigit, ClosedBy, Unescape;
  }

  lemma {:induction false} TokenEscaped(printable: Byte -> bool, p: Bytes, current: Bytes, t: Bytes)
    requires ClosedBy(t)
    ensures Token(Quoted, current, Escaped(printable, p) + [QUOTE] + t) == Some((current + Kept(printable, p), t))
  {
    hide Token, ClosedBy, Escape;
    var s := Escaped(printable, p) + [QUOTE] + t;
    if p == [] {
      assert s[1..] == t && current + Kept(printable, p) == current;
      TokenQuoted(current, s);
    } else {
      var rest := Escaped(printable, p[1..]) + [QUOTE] + t;
      var kept := Kept(printable, p[1..]);
      assert s == Escape(printable, p[0]) + rest;
      if p[0] == NUL && printable(NUL) {
        EscapeNul(printable);
        assert [] + rest == rest && [] + kept == kept;
        TokenEscaped(printable, p[1..], current, t);
      } else {
        TokenEscape(printable, p[0], current, rest);
        TokenEscaped(printable, p[1..], current + [p[0]], t);
        assert current + [p[0]] + kept == current + ([p[0]] + kept);
      }
    }
  }

  lemma EscapeNul(printable: Byte -> bool)
    requires printable(NUL)
    ensures Escape(printable, NUL) == []
  {
  }

  /** The representations, with a space between any two. */
  function Line(printable: Byte -> bool, args: seq<Bytes>): Bytes {
    if args == [] then []
    else if |args| == 1 then Repr(printable, args[0])
    else Repr(printable, args[0]) + [SPACE] + Line(printable, args[1..])
  }

  lemma ArgsSkip(s: Bytes)
    ensures Args([SPACE] + s) == Args(s)
  {
    assert ([SPACE] + s)[1..] == s;
    assert SkipSpaces([SPACE] + s) == SkipSpaces(s);
  }

  lemma ArgsQuoted(printable: Byte -> bool, p: Bytes, t: Bytes)
    requires ClosedBy(t)
    ensures Args(Repr(printable, p) + t) == match Args(t) case None => None case Some(tokens) => Some([Kept(printable, p)] + tokens)
  {
    var s := Repr(printable, p) + t;
    assert s[0] == QUOTE && s[1..] == Escaped(printable, p) + [QUOTE] + t;
    TokenEscaped(printable, p, [], t);
    var kept := Kept(printable, p);
    assert Token(Plain, [], s) == Token(Quoted, [], s[1..]) == Some(([] + kept, t));
    assert [] + kept == kept;
    hide Token;
    assert SkipSpaces(s) == s;
  }

  function AllKept(printable: Byte -> bool, args: seq<Bytes>): (r: seq<Bytes>)
    ensures |r| == |args|
  {
    if args == [] then [] else [Kept(printable, args[0])] + AllKept(printable, args[1..])
  }

  /** A line of quoted byte strings is read as what is kept of them, whatever `isprint` says of a byte. */
  lemma {:induction false} LineRead(printable: Byte -> bool, args: seq<Bytes>)
    ensures Args(Line(printable, args)) == Some(AllKept(printable, args))
  {
    hide Repr, Token, Kept;
    if |args| == 1 {
      var r := Repr(printable, args[0]);
      assert r + [] == r;
      ArgsQuoted(printable, args[0], []);
      assert [Kept(printable, args[0])] + [] == AllKept(printable, args);
    } else if |args| > 1 {
      var rest := Line(printable, args[1..]);
      LineRead(printable, args[1..]);
      ArgsSkip(rest);
      ArgsQuoted(printable, args[0], [SPACE] + rest);
      assert Line(printable, args) == Repr(printable, args[0]) + ([SPACE] + rest);
    }
  }

  lemma {:induction false} KeptEverywhere(printable: Byte -> bool, args: seq<Bytes>)
    ensures AllKept(printable, args) == args <==> !printable(NUL) || forall p | p in args :: NUL !in p
  {
    if args != [] {
      KeptAll(printable, args[0]);
      KeptEverywhere(printable, args[1..]);
      assert args == [args[0]] + args[1..];
    }
  }

  /** A line of quoted byte strings is read as those strings, if and only if none holds a NUL that counts as printable. */
  lemma SplitUndoesRepr(printable: Byte -> bool, args: seq<Bytes>)
    ensures Args(Line(printable, args)) == Some(args) <==> !printable(NUL) || forall p | p in args :: NUL !in p
  {
    hide Args, Line, AllKept;
    LineRead(printable, args);
    KeptEverywhere(printable, args);
  }

  lemma {:induction false} EscapedHasNoNul(printable: Byte -> bool, p: Bytes)
    ensures NUL !in Escaped(printable, p)
  {
    if p != [] {
      EscapedHasNoNul(printable, p[1..]);
      assert NUL !in Escape(printable, p[0]);
    }
  }

  /** The line is a C string, whatever `isprint` says of a byte. */
  lemma {:induction false} LineHasNoNul(printable: Byte -> bool, args: seq<Bytes>)
    ensures NUL !in Line(printable, args)
  {
    if args != [] {
      EscapedHasNoNul(printable, args[0]);
      if |args| > 1 {
        LineHasNoNul(printable, args[1..]);
      }
    }
  }

  // ---------- The loops ----------

  /** What one turn of the inner loop does to the argument that is being read. */
  ghost predicate Turned(line: Bytes, p: nat, current: Bytes, mode: Mode,
                         p': nat, current': Bytes, mode': Mode, done: bool, err: bool)
    requires p <= |line| && p' <= |line|
  {
    var was := Token(mode, current, line[p..]);
    if err then was == None
    else if done then was == Some((current', line[p'..])) && p' >= p
    else was == Token(mode', current', line[p'..]) && p' > p
  }

  /** A turn of the loop between double quotes. */
  method QuotedTurn(line: Bytes, p0: nat, current: Bytes) returns (p: nat, c: Bytes, done: bool, err: bool)
    requires p0 <= |line| && NUL !in line
    ensures p <= |line| && Turned(line, p0, current, Quoted, p, c, Quoted, done, err)
  {
    hide HexDigitToInt, Unescape;
    p, c, done, err := p0, current, false, false;
    ghost var s := line[p0..];
    if At(line, p) == BACKSLASH && At(line, p + 1) == LOWER_X && IsHexDigit(At(line, p + 2)) && IsHexDigit(At(line, p + 3)) {
      c := c + [HexDigitToInt(line[p + 2]) * 16 + HexDigitToInt(line[p + 3])];
      p := p + 3;
    } else if At(line, p) == BACKSLASH && At(line, p + 1) != NUL {
      p := p + 1;
      c := c + [Unescape(line[p])];
    } else if At(line, p) == QUOTE {
      if At(line, p + 1) != NUL && !IsSpace(At(line, p + 1)) {
        err := true;
        return;
      }
      done := true;
    } else if At(line, p) == NUL {
      err := true;
      return;
    } else {
      c := c + [line[p]];
    }
    if At(line, p) != NUL {
      p := p + 1;
    }
  }

  /** A turn of the loop between single quotes. */
  method SingleTurn(line: Bytes, p0: nat, current: Bytes) returns (p: nat, c: Bytes, done: bool, err: bool)
    requires p0 <= |line| && NUL !in line
    ensures p <= |line| && Turned(line, p0, current, Single, p, c, Single, done, err)
  {
    p, c, done, err := p0, current, false, false;
    ghost var s := line[p0..];
    if At(line, p) == BACKSLASH && At(line, p + 1) == APOSTROPHE {
      p := p + 1;
      c := c + [APOSTROPHE];
    } else if At(line, p) == APOSTROPHE {
      if At(line, p + 1) != NUL && !IsSpace(At(line, p + 1)) {
        err := true;
        return;
      }
      done := true;
    } else if At(line, p) == NUL {
      err := true;
      return;
    } else {
      c := c + [line[p]];
    }
    if At(line, p) != NUL {
      p := p + 1;
    }
  }

  /** A turn of the loop outside quotes. */
  method PlainTurn(line: Bytes, p0: nat, current: Bytes) returns (p: nat, c: Bytes, mode: Mode, done: bool)
    requires p0 <= |line| && NUL !in line
    ensures p <= |line| && Turned(line, p0, current, Plain, p, c, mode, done, false)
    ensures done || p > p0
  {
    p, c, mode, done := p0, current, Plain, false;
    ghost var s := line[p0..];
    var b := At(line, p);
    if EndsPlain(b) || b == NUL {
      done := true;
    } else if b == QUOTE {
      mode := Quoted;
    } else if b == APOSTROPHE {
      mode := Single;
    } else {
      c := c + [b];
    }
    if At(line, p) != NUL {
      p := p + 1;
    }
  }

  /** The inner loop of `sdssplitargs`: one argument. */
  method GetToken(line: Bytes, start: nat) returns (p: nat, current: Bytes, err: bool)
    requires start <= |line| && NUL !in line
    ensures start <= p <= |line|
    ensures Token(Plain, [], line[start..]) == if err then None else Some((current, line[p..]))
  {
    hide Token;
    p, current, err := start, [], false;
    var mode, done := Plain, false;
    while !done
      invariant start <= p <= |line|
      invariant Token(Plain, [], line[start..]) == if done then Some((current, line[p..])) else Token(mode, current, line[p..])
      decreases if done then 0 else 1, |line| - p
    {
      match mode {
        case Quoted => p, current, done, err := QuotedTurn(line, p, current);
        case Single => p, current, done, err := SingleTurn(line, p, current);
        case Plain => p, current, mode, done := PlainTurn(line, p, current);
      }
      if err {
        p := start;
        return;
      }
    }
  }

  /** The loop that skips blanks. */
  method SkipSpace(line: Bytes, start: nat) returns (p: nat)
    requires start <= |line| && NUL !in line
    ensures start <= p <= |line| && line[p..] == SkipSpaces(line[start..])
  {
    p := start;
    while At(line, p) != NUL && IsSpace(At(line, p))
      invariant start <= p <= |line| && SkipSpaces(line[p..]) == SkipSpaces(line[start..])
      decreases |line| - p
    {
      assert line[p..][1..] == line[p + 1..];
      p := p + 1;
    }
  }

  function Prefixed(vector: seq<Bytes>, r: Option<seq<Bytes>>): Option<seq<Bytes>> {
    match r
    case None => None
    case Some(tokens) => Some(vector + tokens)
  }

  lemma PrefixedNone(r: Option<seq<Bytes>>)
    ensures Prefixed([], r) == r
  {
    if r.Some? {
      assert [] + r.value == r.value;
    }
  }

  lemma ArgsSkipSpaces(s: Bytes)
    ensures Args(SkipSpaces(s)) == Args(s)
    ensures SkipSpaces(s) == [] ==> Args(s) == Some([])
    ensures SkipSpaces(SkipSpaces(s)) == SkipSpaces(s)
  {
    hide Token;
    assert SkipSpaces(SkipSpaces(s)) == SkipSpaces(s);
  }

  lemma OneToken(vector: seq<Bytes>, s: Bytes)
    requires s != [] && SkipSpaces(s) == s
    ensures Prefixed(vector, Args(s)) == match Token(Plain, [], s)
                                         case None => None
                                         case Some((token, rest)) => Prefixed(vector + [token], Args(rest))
  {
    hide Token, SkipSpaces;
    match Token(Plain, [], s)
    case None =>
    case Some((token, rest)) =>
      match Args(rest) {
        case None =>
        case Some(tokens) => assert vector + ([token] + tokens) == vector + [token] + tokens;
      }
  }

  /** `sdssplitargs` of a NUL-terminated line; none when its quotes are unbalanced. */
  method SplitArgs(line: Bytes) returns (r: Option<seq<Bytes>>)
    requires NUL !in line
    ensures r == Args(line)
  {
    hide Token, Args, SkipSpaces;
    var p := 0;
    var vector: seq<Bytes> := [];
    assert line[0..] == line;
    PrefixedNone(Args(line));
    while true
      invariant 0 <= p <= |line|
      invariant Args(line) == Prefixed(vector, Args(line[p..]))
      decreases |line| - p
    {
      ArgsSkipSpaces(line[p..]);
      p := SkipSpace(line, p);
      if At(line, p) == NUL {
        assert line[p..] == [] && vector + [] == vector;
        return Some(vector);
      }
      OneToken(vector, line[p..]);
      var current, err;
      p, current, err := GetToken(line, p);
      if err {
        return None;
      }
      vector := vector + [current];
    }
  }
}
