/**
 The command writers of `hiredis.c`: both compute the exact length first and then emit. A command is an
 array of bulk strings, so the recursive parser of `Resp.dfy` reads it back.
 */
module RedisCommand {
  import opened ByteStrings
  import opened Resp
  import opened SdsBuffer
  import opened SdsNumbers

  // ---------- sdscatfmt ----------

  /** One variadic argument of `sdscatfmt`. */
  datatype FmtArg = Text(text: Bytes) | Signed(num: int) | Unsigned(unum: nat)

  const LOWER_S: Byte := 115
  const UPPER_S: Byte := 83
  const LOWER_I: Byte := 105
  const UPPER_I: Byte := 73
  const LOWER_U: Byte := 117
  const UPPER_U: Byte := 85
  const UPPER_T: Byte := 84

  predicate TakesText(c: Byte) {
    c == LOWER_S || c == UPPER_S
  }

  predicate TakesSigned(c: Byte) {
    c == LOWER_I || c == UPPER_I
  }

  predicate TakesUnsigned(c: Byte) {
    c == LOWER_U || c == UPPER_U || c == UPPER_T
  }

  /** The arguments are those that the format asks for: C strings where it says so, and numbers within their ranges. */
  predicate Matches(fmt: Bytes, args: seq<FmtArg>) {
    if fmt == [] then args == []
    else if fmt[0] == NUL then false
    else if fmt[0] != PERCENT then Matches(fmt[1..], args)
    else if |fmt| < 2 || fmt[1] == NUL then false
    else if TakesText(fmt[1]) then
      args != [] && args[0].Text? && (fmt[1] == LOWER_S ==> NUL !in args[0].text) && Matches(fmt[2..], args[1..])
    else if TakesSigned(fmt[1]) then
      args != [] && args[0].Signed? && -TWO_63 < args[0].num < TWO_63 && Matches(fmt[2..], args[1..])
    else if TakesUnsigned(fmt[1]) then
      args != [] && args[0].Unsigned? && args[0].unum < TWO_64 && Matches(fmt[2..], args[1..])
    else Matches(fmt[2..], args)
  }

  function Rendered(arg: FmtArg): Bytes {
    match arg
    case Text(t) => t
    case Signed(n) => SignedDecimal(n)
    case Unsigned(n) => Decimal(n)
  }

  /** What `sdscatfmt` appends. */
  function Formatted(fmt: Bytes, args: seq<FmtArg>): Bytes
    requires Matches(fmt, args)
  {
    if fmt == [] then []
    else if fmt[0] != PERCENT then [fmt[0]] + Formatted(fmt[1..], args)
    else if TakesText(fmt[1]) || TakesSigned(fmt[1]) || TakesUnsigned(fmt[1]) then
      Rendered(args[0]) + Formatted(fmt[2..], args[1..])
    else [fmt[1]] + Formatted(fmt[2..], args)
  }

  /** Copies `t` behind the contents without moving the closing NUL there. */
  method Emit(s: Sds, t: Bytes)
    requires s.Sized() && s.free >= |t|
    modifies s, s.buf
    ensures s.Sized() && s.buf == old(s.buf)
    ensures s.Contents() == old(s.Contents()) + t && s.len == old(s.len) + |t|
  {
    forall k | 0 <= k < |t| {
      s.buf[s.len + k] := t[k];
    }
    s.len := s.len + |t|;
    s.free := s.free - |t|;
  }

  /** The text of a number, by way of a buffer on the stack. */
  method NumberText(arg: FmtArg) returns (t: Bytes)
    requires arg.Signed? ==> -TWO_63 < arg.num < TWO_63
    requires arg.Unsigned? ==> arg.unum < TWO_64
    ensures t == Rendered(arg)
  {
    match arg
    case Text(text) => t := text;
    case Signed(num) =>
      var buf := new Byte[LLSTR_SIZE](_ => NUL);
      var l := Ll2Str(buf, num);
      t := buf[..l];
    case Unsigned(unum) =>
      var buf := new Byte[LLSTR_SIZE](_ => NUL);
      var l := Ull2Str(buf, unum);
      t := buf[..l];
  }

  /** One round of the `sdscatfmt` loop: what it appends, and where the format and the arguments go on. */
  method NextText(fmt: Bytes, args: seq<FmtArg>, f: nat, a: nat) returns (t: Bytes, f': nat, a': nat)
    requires f < |fmt| && a <= |args| && Matches(fmt[f..], args[a..])
    ensures f < f' <= |fmt| && a <= a' <= |args| && Matches(fmt[f'..], args[a'..])
    ensures Formatted(fmt[f..], args[a..]) == t + Formatted(fmt[f'..], args[a'..])
  {
    ghost var rest, others := fmt[f..], args[a..];
    f', a' := f + 1, a;
    assert rest[1..] == fmt[f + 1..];
    if fmt[f] == PERCENT {
      var next := fmt[f + 1];
      assert rest[2..] == fmt[f + 2..];
      f' := f' + 1;
      if TakesText(next) || TakesSigned(next) || TakesUnsigned(next) {
        assert others[1..] == args[a + 1..];
        t := NumberText(args[a]);
        a' := a + 1;
      } else {
        t := [next];
      }
    } else {
      t := [fmt[f]];
    }
  }

  method CatFmt(s: Sds, fmt: Bytes, args: seq<FmtArg>)
    requires s.Valid() && Matches(fmt, args)
    modifies s, s.buf
    ensures s.Valid() && (s.buf == old(s.buf) || fresh(s.buf))
    ensures s.Contents() == old(s.Contents()) + Formatted(fmt, args)
  {
    hide Matches, Formatted;
    var f, a := 0, 0;
    ghost var start := s.Contents();
    assert fmt[0..] == fmt && args[0..] == args;
    ghost var done: Bytes := [];
    assert s.Contents() == start + done;
    assert Formatted(fmt, args) == done + Formatted(fmt[f..], args[a..]);
    while f < |fmt|
      invariant 0 <= f <= |fmt| && 0 <= a <= |args|
      invariant s.Sized() && (s.buf == old(s.buf) || fresh(s.buf))
      invariant Matches(fmt[f..], args[a..])
      invariant s.Contents() == start + done
      invariant Formatted(fmt, args) == done + Formatted(fmt[f..], args[a..])
    {
      if s.free == 0 {
        s.MakeRoomFor(1);
      }
      var t, f', a' := NextText(fmt, args, f, a);
      if s.free < |t| {
        s.MakeRoomFor(|t|);
      }
      Emit(s, t);
      Regroup(start, done, t, Formatted(fmt[f'..], args[a'..]));
      done := done + t;
      f, a := f', a';
    }
    assert fmt[f..] == [];
    FormattedNothing(args[a..]);
    s.buf[s.len] := NUL;
    assert done + [] == done;
  }

  lemma FormattedNothing(args: seq<FmtArg>)
    requires Matches([], args)
    ensures Formatted([], args) == []
  {
  }

  lemma Regroup(a: Bytes, b: Bytes, c: Bytes, d: Bytes)
    ensures a + b + c == a + (b + c)
    ensures b + (c + d) == b + c + d
  {
  }

  // ---------- Commands ----------

  /** A type byte and a count. */
  function Header(ty: Byte, n: nat): Bytes {
    [ty] + Decimal(n) + CRLF
  }

  function Bulk(arg: Bytes): Bytes {
    Header(DOLLAR, |arg|) + arg + CRLF
  }

  function Bulks(argv: seq<Bytes>): Bytes {
    if argv == [] then [] else Bulk(argv[0]) + Bulks(argv[1..])
  }

  /** A command on the wire. */
  function Command(argv: seq<Bytes>): Bytes {
    Header(STAR, |argv|) + Bulks(argv)
  }

  function Strs(argv: seq<Bytes>): (r: seq<Reply>)
    ensures |r| == |argv|
    ensures forall i | 0 <= i < |argv| :: r[i] == Str(argv[i])
  {
    if argv == [] then [] else [Str(argv[0])] + Strs(argv[1..])
  }

  lemma {:induction false} BulksSnoc(argv: seq<Bytes>, i: nat)
    requires i < |argv|
    ensures Bulks(argv[..i + 1]) == Bulks(argv[..i]) + Bulk(argv[i])
  {
    if i == 0 {
      assert argv[..1] == [argv[0]];
      assert Bulks([argv[0]]) == Bulk(argv[0]) + Bulks([]);
    } else {
      BulksSnoc(argv[1..], i - 1);
      assert argv[..i + 1][1..] == argv[1..][..i];
      assert argv[..i][1..] == argv[1..][..i - 1];
    }
  }

  // ---------- Reading commands back ----------

  /** A line without CR ends where it is ended. */
  lemma NewlineAfter(line: Bytes, t: Bytes)
    requires CR !in line
    ensures Newline(line + CRLF + t) == Some(|line|)
    ensures (line + CRLF + t)[..|line|] == line && (line + CRLF + t)[|line| + 2..] == t
  {
    var s := line + CRLF + t;
    assert IsNewline(s, |line|);
    forall j | 0 <= j < |line|
      ensures !IsNewline(s, j)
    {
      assert s[j] == line[j];
    }
  }

  lemma DecimalLine(n: nat, t: Bytes)
    ensures var s := Decimal(n) + CRLF + t;
            Newline(s).Some? && Number(s[..Newline(s).value]) == n && s[Newline(s).value + 2..] == t
  {
    assert CR !in Decimal(n);
    NewlineAfter(Decimal(n), t);
    NumberSignedDecimal(n);
  }

  lemma ReadBulk(arg: Bytes, t: Bytes, depth: nat)
    ensures ParseReply(Bulk(arg) + t, depth) == Done(Str(arg), t)
  {
    var s := Bulk(arg) + t;
    var body := arg + CRLF + t;
    DecimalLine(|arg|, body);
    assert s[1..] == Decimal(|arg|) + CRLF + body;
    assert body[..|arg|] == arg;
    assert body[|arg| + 2..] == t;
  }

  lemma {:induction false} ReadBulks(argv: seq<Bytes>, t: Bytes, depth: nat)
    ensures ParseElements(Bulks(argv) + t, |argv|, depth) == Done(Strs(argv), t)
  {
    if argv == [] {
      assert Bulks(argv) + t == t;
    } else {
      hide ParseReply;
      var others := Bulks(argv[1..]) + t;
      ReadBulk(argv[0], others, depth);
      ReadBulks(argv[1..], t, depth);
      assert Bulks(argv) + t == Bulk(argv[0]) + others by { Regroup(Bulk(argv[0]), Bulks(argv[1..]), t, []); }
    }
  }

  /** The reader finds in a command one array with the arguments as they were, whatever bytes they hold. */
  lemma ReadCommand(argv: seq<Bytes>, t: Bytes)
    ensures ParseReply(Command(argv) + t, 0) == Done(Array(Strs(argv)), t)
  {
    hide ReadHead, Bulks, Decimal, ParseElements;
    var s := Command(argv) + t;
    var body := Bulks(argv) + t;
    assert s[0] == STAR && s[1..] == Decimal(|argv|) + CRLF + body && TypeOf(STAR) == Some(ArrayItem);
    CommandHead(|argv|, body);
    if argv == [] {
      NoBulks(t);
    } else {
      ReadBulks(argv, t, 1);
    }
  }

  lemma CommandHead(n: nat, body: Bytes)
    ensures ReadHead(ArrayItem, Decimal(n) + CRLF + body, 0) == Done(if n == 0 then Leaf(Array([])) else Open(n), body)
  {
    hide Decimal, Newline, Number;
    DecimalLine(n, body);
  }

  function Commands(argvs: seq<seq<Bytes>>): Bytes {
    if argvs == [] then [] else Command(argvs[0]) + Commands(argvs[1..])
  }

  function Arrays(argvs: seq<seq<Bytes>>): (r: seq<Reply>)
    ensures |r| == |argvs|
    ensures forall i | 0 <= i < |argvs| :: r[i] == Array(Strs(argvs[i]))
  {
    if argvs == [] then [] else [Array(Strs(argvs[0]))] + Arrays(argvs[1..])
  }

  /** Reader and writer undo each other: a pipeline of commands is read back in order, with every byte consumed. */
  lemma {:induction false} ReadCommands(argvs: seq<seq<Bytes>>)
    ensures ParseStream(Commands(argvs)) == Stream(Arrays(argvs), None, [])
  {
    if argvs != [] {
      ReadCommand(argvs[0], Commands(argvs[1..]));
      ReadCommands(argvs[1..]);
    }
  }

  // ---------- The writers ----------

  /** `bulklen` */
  method BulkLen(len: nat) returns (n: nat)
    ensures forall arg: Bytes | |arg| == len :: n == |Bulk(arg)|
  {
    var digits := CountDigits(len);
    n := 1 + digits + 2 + len + 2;
  }

  /** The length pass that both writers begin with. */
  method TotalLength(argv: seq<Bytes>) returns (totlen: nat)
    ensures totlen == |Command(argv)|
  {
    var digits := CountDigits(|argv|);
    totlen := 1 + digits + 2;
    var j := 0;
    while j < |argv|
      invariant 0 <= j <= |argv|
      invariant totlen == 1 + |Decimal(|argv|)| + 2 + |Bulks(argv[..j])|
    {
      var n := BulkLen(|argv[j]|);
      BulksSnoc(argv, j);
      totlen := totlen + n;
      j := j + 1;
    }
    assert argv[..|argv|] == argv;
  }

  const ARRAY_FORMAT: Bytes := [STAR, PERCENT, LOWER_I, CR, LF]
  const BULK_FORMAT: Bytes := [DOLLAR, PERCENT, UPPER_T, CR, LF]

  lemma ArrayFormat(n: nat)
    requires n < TWO_63
    ensures Matches(ARRAY_FORMAT, [Signed(n)])
    ensures Formatted(ARRAY_FORMAT, [Signed(n)]) == Header(STAR, n)
  {
    HeaderFormat(STAR, LOWER_I, Signed(n));
  }

  /** A type byte, a number directive, and the end of the line. */
  lemma HeaderFormat(ty: Byte, directive: Byte, arg: FmtArg)
    requires ty != PERCENT && ty != NUL
    requires || (TakesSigned(directive) && arg.Signed? && -TWO_63 < arg.num < TWO_63)
             || (TakesUnsigned(directive) && arg.Unsigned? && arg.unum < TWO_64)
    ensures var fmt := [ty, PERCENT, directive, CR, LF];
            Matches(fmt, [arg]) && Formatted(fmt, [arg]) == [ty] + Rendered(arg) + CRLF
  {
    var fmt: Bytes := [ty, PERCENT, directive, CR, LF];
    var tail: Bytes := [PERCENT, directive, CR, LF];
    var last: Bytes := [LF];
    assert last[1..] == [] && Matches(last, []) && Formatted(last, []) == [LF];
    assert CRLF[1..] == last && Matches(CRLF, []) && Formatted(CRLF, []) == CRLF;
    assert tail[2..] == CRLF && [arg][1..] == [];
    assert Matches(tail, [arg]) && Formatted(tail, [arg]) == Rendered(arg) + CRLF;
    assert fmt[1..] == tail;
  }

  lemma BulkFormat(n: nat)
    requires n < TWO_64
    ensures Matches(BULK_FORMAT, [Unsigned(n)])
    ensures Formatted(BULK_FORMAT, [Unsigned(n)]) == Header(DOLLAR, n)
  {
    HeaderFormat(DOLLAR, UPPER_T, Unsigned(n));
  }

  /** The arguments are within the ranges of `int` and `size_t`. */
  predicate InRange(argv: seq<Bytes>) {
    |argv| < 0x8000_0000 && forall a | a in argv :: |a| < TWO_64
  }

  /** `redisFormatSdsCommandArgv`: the assertion on the length computed beforehand holds. */
  method FormatSdsCommandArgv(argv: seq<Bytes>) returns (cmd: Sds, totlen: nat)
    requires InRange(argv)
    ensures fresh(cmd) && cmd.Valid()
    ensures cmd.Contents() == Command(argv) && totlen == |Command(argv)|
  {
    hide Matches, Formatted, Header, Bulk, Bulks;
    totlen := TotalLength(argv);
    cmd := new Sds();
    cmd.MakeRoomFor(totlen);
    ArrayFormat(|argv|);
    CatFmt(cmd, ARRAY_FORMAT, [Signed(|argv|)]);
    ghost var head := Header(STAR, |argv|);
    NoBulks(head);
    assert argv[..0] == [];
    var j := 0;
    while j < |argv|
      invariant 0 <= j <= |argv| && cmd.Valid() && fresh(cmd) && fresh(cmd.buf)
      invariant cmd.Contents() == head + Bulks(argv[..j])
    {
      AppendBulk(cmd, argv[j]);
      BulksSnoc(argv, j);
      Regroup(head, Bulks(argv[..j]), Bulk(argv[j]), []);
      j := j + 1;
    }
    assert argv[..|argv|] == argv;
    assert cmd.len == totlen;
  }

  lemma NoBulks(head: Bytes)
    ensures [] + head == head + Bulks([]) && Bulks([]) + head == head
  {
  }

  /** One argument of a command, by way of a format for its length. */
  method AppendBulk(cmd: Sds, arg: Bytes)
    requires cmd.Valid() && |arg| < TWO_64
    modifies cmd, cmd.buf
    ensures cmd.Valid() && (cmd.buf == old(cmd.buf) || fresh(cmd.buf))
    ensures cmd.Contents() == old(cmd.Contents()) + Bulk(arg)
  {
    hide Matches, Formatted, Header;
    ghost var before := cmd.Contents();
    BulkFormat(|arg|);
    CatFmt(cmd, BULK_FORMAT, [Unsigned(|arg|)]);
    cmd.CatLen(arg);
    cmd.CatLen(CRLF);
    Regroup4(before, Header(DOLLAR, |arg|), arg, CRLF);
  }

  lemma Regroup4(a: Bytes, b: Bytes, c: Bytes, d: Bytes)
    ensures a + b + c + d == a + (b + c + d)
  {
  }

  lemma Regroup5(a: Bytes, b: Bytes, c: Bytes, d: Bytes, e: Bytes)
    ensures a + b + c + d + e == a + (b + (c + d + e))
  {
  }

  /** Copies `t` to `pos`; the result is the position behind it. */
  method Put(cmd: array<Byte>, pos: nat, t: Bytes) returns (next: nat)
    requires pos + |t| <= cmd.Length
    modifies cmd
    ensures next == pos + |t| && cmd[..next] == old(cmd[..pos]) + t
  {
    forall k | 0 <= k < |t| {
      cmd[pos + k] := t[k];
    }
    next := pos + |t|;
  }

  /** `redisFormatCommandArgv`: the same bytes in a plain NUL-terminated buffer that is exactly long enough. */
  method FormatCommandArgv(argv: seq<Bytes>) returns (cmd: array<Byte>, totlen: nat)
    requires InRange(argv)
    ensures fresh(cmd) && cmd.Length == totlen + 1
    ensures cmd[..totlen] == Command(argv) && cmd[totlen] == NUL
  {
    hide Header, Decimal;
    totlen := TotalLength(argv);
    cmd := new Byte[totlen + 1](_ => NUL);
    ghost var head := Header(STAR, |argv|);
    var pos := Put(cmd, 0, Header(STAR, |argv|));
    var j := 0;
    while j < |argv|
      invariant 0 <= j <= |argv| && pos == |head| + |Bulks(argv[..j])|
      invariant cmd.Length == totlen + 1 == |head| + |Bulks(argv)| + 1
      invariant pos <= totlen && cmd[..pos] == head + Bulks(argv[..j])
    {
      BulksSnoc(argv, j);
      BulksGrow(argv, j + 1);
      Regroup5(head, Bulks(argv[..j]), Header(DOLLAR, |argv[j]|), argv[j], CRLF);
      pos := Put(cmd, pos, Header(DOLLAR, |argv[j]|));
      pos := Put(cmd, pos, argv[j]);
      pos := Put(cmd, pos, CRLF);
      j := j + 1;
    }
    assert argv[..|argv|] == argv;
    assert pos == totlen;
    cmd[pos] := NUL;
  }

  lemma {:induction false} BulksGrow(argv: seq<Bytes>, j: nat)
    requires j <= |argv|
    ensures |Bulks(argv[..j])| <= |Bulks(argv)|
    decreases |argv| - j
  {
    if j == |argv| {
      assert argv[..j] == argv;
    } else {
      BulksSnoc(argv, j);
      BulksGrow(argv, j + 1);
    }
  }
}
