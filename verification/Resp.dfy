/**
 The Redis serialization protocol as a plain recursive parser over a whole byte string.
 This is the meaning that the resumable reader of `RedisReader.dfy` is held to; it reads header
 numbers the way `readLongLong` does and skips the two bytes after a bulk string unchecked.
 */
module Resp {
  import opened ByteStrings

  datatype Reply =
    | Str(str: Bytes)
    | Array(elements: seq<Reply>)
    | Integer(value: int)
    | Nil
    | Status(str: Bytes)
    | Error(str: Bytes)

  /** The type byte that precedes every item, decoded. */
  datatype ItemType = BulkItem | ArrayItem | IntegerItem | StatusItem | ErrorItem

  datatype ProtocolError = BadTypeByte(b: Byte) | TooDeep

  /** The number of array levels above an item at which another array is refused. */
  const MAX_DEPTH: nat := 8

  /** A finished value with the input left after it, not enough input, or a protocol error. */
  datatype Outcome<+T> = Done(value: T, rest: Bytes) | More | Fail(error: ProtocolError) {
    predicate IsFailure() {
      !Done?
    }

    function PropagateFailure<U>(): Outcome<U>
      requires IsFailure()
    {
      if More? then More else Fail(error)
    }

    function Extract(): (T, Bytes)
      requires !IsFailure()
    {
      (value, rest)
    }
  }

  function TypeOf(b: Byte): Option<ItemType> {
    if b == MINUS then Some(ErrorItem)
    else if b == PLUS then Some(StatusItem)
    else if b == COLON then Some(IntegerItem)
    else if b == DOLLAR then Some(BulkItem)
    else if b == STAR then Some(ArrayItem)
    else None
  }

  predicate IsNewline(s: Bytes, i: int) {
    0 <= i && i + 1 < |s| && s[i] == CR && s[i + 1] == LF
  }

  /** The position of the first CR LF at or after `i`. */
  function NewlineFrom(s: Bytes, i: nat): (r: Option<nat>)
    ensures r.Some? ==> i <= r.value && IsNewline(s, r.value) && forall j | i <= j < r.value :: !IsNewline(s, j)
    ensures r.None? ==> forall j | i <= j :: !IsNewline(s, j)
    decreases |s| - i
  {
    if i + 1 >= |s| then None
    else if IsNewline(s, i) then Some(i)
    else NewlineFrom(s, i + 1)
  }

  function Newline(s: Bytes): (r: Option<nat>)
    ensures r.Some? ==> r.value + 2 <= |s|
  {
    NewlineFrom(s, 0)
  }

  /** The value of a run of digits that ends at a CR or at the end of the line; None for any other byte. */
  function Digits(line: Bytes, v: nat): Option<nat> {
    if line == [] || line[0] == CR then Some(v)
    else if IsDigit(line[0]) then Digits(line[1..], 10 * v + (line[0] - ZERO))
    else None
  }

  /** A header number: an optional sign, then digits; -1 stands for anything unexpected. */
  function Number(line: Bytes): int {
    var negative := line != [] && line[0] == MINUS;
    var signed := negative || (line != [] && line[0] == PLUS);
    match Digits(if signed then line[1..] else line, 0)
    case None => -1
    case Some(v) => var magnitude: int := v; if negative then -magnitude else magnitude
  }

  /** What an item amounts to before any of its children are read. */
  datatype Head = Leaf(reply: Reply) | Open(elements: nat)

  function LineReply(ty: ItemType, line: Bytes): Reply {
    if ty == IntegerItem then Integer(Number(line))
    else if ty == ErrorItem then Error(line)
    else Status(line)
  }

  /** Reads one item, whose type byte is already consumed and which has `depth` array ancestors. */
  function ReadHead(ty: ItemType, s: Bytes, depth: nat): (r: Outcome<Head>)
    ensures r.Done? ==> |r.rest| + 2 <= |s|
    ensures r.Done? && r.value.Open? ==> r.value.elements > 0 && depth != MAX_DEPTH
  {
    if ty == ArrayItem && depth == MAX_DEPTH then Fail(TooDeep) else
    match Newline(s)
    case None => More
    case Some(k) =>
      var line, body := s[..k], s[k + 2..];
      match ty
      case BulkItem =>
        var n := Number(line);
        if n < 0 then Done(Leaf(Nil), body)
        else if n + 2 <= |body| then Done(Leaf(Str(body[..n])), body[n + 2..])
        else More
      case ArrayItem =>
        var n := Number(line);
        if n == -1 then Done(Leaf(Nil), body)
        else if n <= 0 then Done(Leaf(Array([])), body)
        else Done(Open(n), body)
      case _ => Done(Leaf(LineReply(ty, line)), body)
  }

  function ParseBody(ty: ItemType, s: Bytes, depth: nat): (r: Outcome<Reply>)
    ensures r.Done? ==> |r.rest| + 2 <= |s|
    decreases |s|, 0
  {
    var (head, rest) :- ReadHead(ty, s, depth);
    match head
    case Leaf(reply) => Done(reply, rest)
    case Open(n) =>
      var (elements, rest') :- ParseElements(rest, n, depth + 1);
      Done(Array(elements), rest')
  }

  /** One reply from the front of `s`, nested inside `depth` arrays. */
  function ParseReply(s: Bytes, depth: nat): (r: Outcome<Reply>)
    ensures r.Done? ==> |r.rest| + 3 <= |s|
    decreases |s|, 0
  {
    if s == [] then More else
    match TypeOf(s[0])
    case None => Fail(BadTypeByte(s[0]))
    case Some(ty) => ParseBody(ty, s[1..], depth)
  }

  /** `n` replies, one after the other. */
  function ParseElements(s: Bytes, n: nat, depth: nat): (r: Outcome<seq<Reply>>)
    ensures r.Done? ==> |r.value| == n && |r.rest| <= |s|
    decreases |s|, 1
  {
    if n == 0 then Done([], s) else
    var (first, rest) :- ParseReply(s, depth);
    var (others, rest') :- ParseElements(rest, n - 1, depth);
    Done([first] + others, rest')
  }

  /** Everything a whole stream amounts to: its replies, the first error, and the bytes left over. */
  datatype Stream = Stream(replies: seq<Reply>, error: Option<ProtocolError>, rest: Bytes)

  function ParseStream(s: Bytes): Stream
    decreases |s|
  {
    match ParseReply(s, 0)
    case Done(reply, rest) =>
      var tail := ParseStream(rest);
      tail.(replies := [reply] + tail.replies)
    case More => Stream([], None, s)
    case Fail(e) => Stream([], Some(e), s)
  }

  // ---------- More input never changes what was already decided ----------

  lemma NewlineExtends(s: Bytes, t: Bytes)
    requires Newline(s).Some?
    ensures Newline(s + t) == Newline(s)
  {
    var k := Newline(s).value;
    assert IsNewline(s + t, k);
    forall j | 0 <= j < k
      ensures !IsNewline(s + t, j)
    {
      assert !IsNewline(s, j);
    }
  }

  lemma NewlineSplits(s: Bytes, t: Bytes)
    requires Newline(s).Some?
    ensures var k := Newline(s).value;
            Newline(s + t) == Some(k) && k + 2 <= |s| && (s + t)[..k] == s[..k] && (s + t)[k + 2..] == s[k + 2..] + t
  {
    NewlineExtends(s, t);
    DropAppend(s, t, Newline(s).value);
    DropAppend(s, t, Newline(s).value + 2);
  }

  lemma BulkExtends(s: Bytes, t: Bytes, depth: nat)
    requires !ReadHead(BulkItem, s, depth).More?
    ensures var r := ReadHead(BulkItem, s, depth);
            ReadHead(BulkItem, s + t, depth) == if r.Done? then Done(r.value, r.rest + t) else r
  {
    hide Number, Newline;
    NewlineSplits(s, t);
    var k := Newline(s).value;
    var n := Number(s[..k]);
    if n >= 0 {
      DropAppend(s[k + 2..], t, n);
      DropAppend(s[k + 2..], t, n + 2);
    }
  }

  lemma HeadExtends(ty: ItemType, s: Bytes, t: Bytes, depth: nat)
    requires !ReadHead(ty, s, depth).More?
    ensures var r := ReadHead(ty, s, depth);
            ReadHead(ty, s + t, depth) == if r.Done? then Done(r.value, r.rest + t) else r
  {
    hide Number, Newline;
    if ty == BulkItem {
      BulkExtends(s, t, depth);
    } else if !(ty == ArrayItem && depth == MAX_DEPTH) {
      NewlineSplits(s, t);
    }
  }

  /** The result of parsing a longer input whose prefix already decided the outcome. */
  function Extended<T>(r: Outcome<T>, t: Bytes): Outcome<T> {
    if r.Done? then Done(r.value, r.rest + t) else r
  }

  lemma {:induction false} BodyExtends(ty: ItemType, s: Bytes, t: Bytes, depth: nat)
    requires !ParseBody(ty, s, depth).More?
    ensures ParseBody(ty, s + t, depth) == Extended(ParseBody(ty, s, depth), t)
    decreases |s|, 0
  {
    HeadExtends(ty, s, t, depth);
    var head := ReadHead(ty, s, depth);
    if head.Done? && head.value.Open? {
      ElementsExtend(head.rest, head.value.elements, t, depth + 1);
    }
  }

  /** A reply or an error found in `s` is found unchanged in every extension of `s`. */
  lemma {:induction false} ReplyExtends(s: Bytes, t: Bytes, depth: nat)
    requires !ParseReply(s, depth).More?
    ensures ParseReply(s + t, depth) == Extended(ParseReply(s, depth), t)
    decreases |s|, 0
  {
    assert s != [];
    assert (s + t)[0] == s[0];
    if TypeOf(s[0]).Some? {
      DropAppend(s, t, 1);
      BodyExtends(TypeOf(s[0]).value, s[1..], t, depth);
    }
  }

  lemma {:induction false} ElementsExtend(s: Bytes, n: nat, t: Bytes, depth: nat)
    requires !ParseElements(s, n, depth).More?
    ensures ParseElements(s + t, n, depth) == Extended(ParseElements(s, n, depth), t)
    decreases |s|, 1
  {
    if n > 0 {
      ReplyExtends(s, t, depth);
      var first := ParseReply(s, depth);
      if first.Done? {
        ElementsExtend(first.rest, n - 1, t, depth);
      }
    }
  }

  /** The stream that follows what is already delivered. */
  function After(a: Stream, t: Bytes): Stream {
    if a.error.Some? then a.(rest := a.rest + t)
    else var b := ParseStream(a.rest + t); b.(replies := a.replies + b.replies)
  }

  /** What a stream delivers after `s + t` is what it delivered after `s`, and then the rest: no cut matters. */
  lemma {:induction false} StreamSplits(s: Bytes, t: Bytes)
    ensures ParseStream(s + t) == After(ParseStream(s), t)
    decreases |s|
  {
    var r := ParseReply(s, 0);
    if r.Done? {
      ReplyExtends(s, t, 0);
      StreamSplits(r.rest, t);
      AfterCons(r.value, ParseStream(r.rest), t);
    } else if r.Fail? {
      ReplyExtends(s, t, 0);
    } else {
      assert [] + ParseStream(s + t).replies == ParseStream(s + t).replies;
    }
  }

  lemma AfterCons(reply: Reply, a: Stream, t: Bytes)
    ensures After(a.(replies := [reply] + a.replies), t) ==
            var all := After(a, t); all.(replies := [reply] + all.replies)
  {
    if a.error.None? {
      var b := ParseStream(a.rest + t);
      assert [reply] + a.replies + b.replies == [reply] + (a.replies + b.replies);
    }
  }

  // ---------- Depth ----------

  function Nesting(r: Reply): nat {
    match r
    case Array(elements) => 1 + ListNesting(elements)
    case _ => 0
  }

  function ListNesting(rs: seq<Reply>): nat {
    if rs == [] then 0 else
    var a, b := Nesting(rs[0]), ListNesting(rs[1..]);
    if a < b then b else a
  }

  /** No reply ever holds more than `MAX_DEPTH` arrays inside each other. */
  lemma {:induction false} BodyNesting(ty: ItemType, s: Bytes, depth: nat)
    requires depth <= MAX_DEPTH && ParseBody(ty, s, depth).Done?
    ensures depth + Nesting(ParseBody(ty, s, depth).value) <= MAX_DEPTH
    decreases |s|, 0
  {
    var head := ReadHead(ty, s, depth);
    if head.value.Open? {
      ElementsNesting(head.rest, head.value.elements, depth + 1);
    }
  }

  lemma {:induction false} ElementsNesting(s: Bytes, n: nat, depth: nat)
    requires depth <= MAX_DEPTH && ParseElements(s, n, depth).Done?
    ensures depth + ListNesting(ParseElements(s, n, depth).value) <= MAX_DEPTH
    decreases |s|, 1
  {
    if n > 0 {
      var first := ParseReply(s, depth);
      BodyNesting(TypeOf(s[0]).value, s[1..], depth);
      ElementsNesting(first.rest, n - 1, depth);
      var others := ParseElements(first.rest, n - 1, depth).value;
      assert ([first.value] + others)[1..] == others;
    }
  }

  /** `k` headers of arrays with one element. */
  function Headers(k: nat): Bytes {
    if k == 0 then [] else [STAR, ZERO + 1, CR, LF] + Headers(k - 1)
  }

  /** A reply inside an array. */
  function Inside(r: Outcome<Reply>): Outcome<Reply> {
    if r.Done? then Done(Array([r.value]), r.rest) else r
  }

  /** A reply inside `k` arrays. */
  function Wrapped(k: nat, r: Outcome<Reply>): Outcome<Reply> {
    if k == 0 then r else Inside(Wrapped(k - 1, r))
  }

  lemma OneHeader(s: Bytes, depth: nat)
    requires depth < MAX_DEPTH
    ensures ReadHead(ArrayItem, [ZERO + 1, CR, LF] + s, depth) == Done(Open(1), s)
  {
    var line := [ZERO + 1, CR, LF] + s;
    assert !IsNewline(line, 0) && IsNewline(line, 1);
    assert Newline(line) == Some(1);
    assert line[..1] == [ZERO + 1] && line[3..] == s;
    assert Digits([ZERO + 1], 0) == Digits([], 1) == Some(1);
  }

  lemma OneElement(s: Bytes, depth: nat)
    requires ParseReply(s, depth).Done?
    ensures ParseElements(s, 1, depth) == var r := ParseReply(s, depth); Done([r.value], r.rest)
  {
    hide ParseReply;
    var r := ParseReply(s, depth);
    assert ParseElements(r.rest, 0, depth) == Done([], r.rest);
    assert [r.value] + [] == [r.value];
  }

  lemma NoElement(s: Bytes, depth: nat)
    requires !ParseReply(s, depth).Done?
    ensures ParseElements(s, 1, depth) == match ParseReply(s, depth) case More => More case Fail(e) => Fail(e)
  {
    hide ParseReply;
  }

  lemma OneArray(s: Bytes, depth: nat)
    requires depth < MAX_DEPTH
    ensures ParseReply([STAR, ZERO + 1, CR, LF] + s, depth) == Inside(ParseReply(s, depth + 1))
  {
    hide ReadHead, ParseElements;
    var line, all := [ZERO + 1, CR, LF] + s, [STAR, ZERO + 1, CR, LF] + s;
    assert all[0] == STAR && all[1..] == line && TypeOf(STAR) == Some(ArrayItem);
    OneHeader(s, depth);
    if ParseReply(s, depth + 1).Done? {
      OneElement(s, depth + 1);
    } else {
      NoElement(s, depth + 1);
    }
  }

  lemma NoDeeper(s: Bytes)
    ensures ParseReply([STAR, ZERO + 1, CR, LF] + s, MAX_DEPTH) == Fail(TooDeep)
  {
    assert ([STAR, ZERO + 1, CR, LF] + s)[0] == STAR && TypeOf(STAR) == Some(ArrayItem);
  }

  /** Arrays inside each other are read down to the last level, and the next array header is an error. */
  lemma {:induction false} NestedHeaders(k: nat, s: Bytes, depth: nat)
    requires depth <= MAX_DEPTH
    ensures ParseReply(Headers(k) + s, depth)
         == if depth + k <= MAX_DEPTH then Wrapped(k, ParseReply(s, depth + k)) else Fail(TooDeep)
  {
    hide ParseReply;
    if k == 0 {
      assert Headers(0) + s == s;
    } else {
      var rest := Headers(k - 1) + s;
      assert Headers(k) + s == [STAR, ZERO + 1, CR, LF] + rest;
      if depth < MAX_DEPTH {
        OneArray(rest, depth);
        NestedHeaders(k - 1, s, depth + 1);
      } else {
        NoDeeper(rest);
      }
    }
  }
}
