/**
 The reply side of the Redis protocol, written down with its own bytes, and the proof that the parser of `Resp`
 reads exactly what was written. Every type byte, both forms of nil and the depth limit are fixed here.
 */
module RespWire {
  import opened ByteStrings
  import opened Resp
  import opened SdsNumbers

  /** What a server sends: nil can be sent as a bulk or as an array. */
  datatype Wire =
    | Simple(text: Bytes)
    | Failure(text: Bytes)
    | Number(value: int)
    | Bulk(data: Bytes)
    | NilBulk
    | NilArray
    | Items(items: seq<Wire>)

  const LINE_END: Bytes := ['\r' as int, '\n' as int]

  /** The decimal numeral of a number. */
  function Numeral(n: nat): Bytes {
    if n < 10 then ['0' as int + n] else Numeral(n / 10) + ['0' as int + n % 10]
  }

  function SignedNumeral(v: int): Bytes {
    if v < 0 then ['-' as int] + Numeral(-v) else Numeral(v)
  }

  function Print(w: Wire): Bytes {
    match w
    case Simple(text) => ['+' as int] + (text + LINE_END)
    case Failure(text) => ['-' as int] + (text + LINE_END)
    case Number(v) => [':' as int] + (SignedNumeral(v) + LINE_END)
    case Bulk(data) => ['$' as int] + (Numeral(|data|) + LINE_END) + (data + LINE_END)
    case NilBulk => ['$' as int] + (['-' as int, '1' as int] + LINE_END)
    case NilArray => ['*' as int] + (['-' as int, '1' as int] + LINE_END)
    case Items(items) => ['*' as int] + (Numeral(|items|) + LINE_END) + PrintAll(items)
  }

  function PrintAll(ws: seq<Wire>): Bytes {
    if ws == [] then [] else Print(ws[0]) + PrintAll(ws[1..])
  }

  /** The reply that is meant. */
  function Meaning(w: Wire): Reply {
    match w
    case Simple(text) => Status(text)
    case Failure(text) => Error(text)
    case Number(v) => Integer(v)
    case Bulk(data) => Str(data)
    case NilBulk => Nil
    case NilArray => Nil
    case Items(items) => Array(MeaningAll(items))
  }

  function MeaningAll(ws: seq<Wire>): (r: seq<Reply>)
    ensures |r| == |ws|
  {
    if ws == [] then [] else [Meaning(ws[0])] + MeaningAll(ws[1..])
  }

  /** No status and no error text has a line end in it. */
  predicate OneLine(text: Bytes) {
    forall i | 0 <= i < |text| :: !IsNewline(text, i)
  }

  predicate Printable(w: Wire) {
    match w
    case Simple(text) => OneLine(text)
    case Failure(text) => OneLine(text)
    case Items(items) => AllPrintable(items)
    case _ => true
  }

  predicate AllPrintable(ws: seq<Wire>) {
    ws == [] || (Printable(ws[0]) && AllPrintable(ws[1..]))
  }

  /** How many array headers stand inside each other: those of an empty and of a nil array count too. */
  function Depth(w: Wire): nat {
    match w
    case NilArray => 1
    case Items(items) => 1 + DepthAll(items)
    case _ => 0
  }

  function DepthAll(ws: seq<Wire>): nat {
    if ws == [] then 0 else
    var a, b := Depth(ws[0]), DepthAll(ws[1..]);
    if a < b then b else a
  }

  // ---------- Lines ----------

  lemma {:induction false} NumeralIsDecimal(n: nat)
    ensures Numeral(n) == Decimal(n)
  {
    if n >= 10 { NumeralIsDecimal(n / 10); }
  }

  lemma SignedNumeralIsDecimal(v: int)
    ensures SignedNumeral(v) == SignedDecimal(v)
  {
    NumeralIsDecimal(if v < 0 then -v else v);
  }

  lemma NumeralOneLine(v: int)
    ensures OneLine(SignedNumeral(v)) && CR !in SignedNumeral(v)
  {
    SignedNumeralIsDecimal(v);
    var text := SignedNumeral(v);
    assert forall c | c in Decimal(if v < 0 then -v else v) :: IsDigit(c);
    assert forall i | 0 <= i < |text| :: text[i] in text;
  }

  /** A line is read up to its end, also when it ends in a CR of its own. */
  lemma LineRead(text: Bytes, t: Bytes)
    requires OneLine(text)
    ensures var s := text + LINE_END + t;
            Newline(s) == Some(|text|) && s[..|text|] == text && s[|text| + 2..] == t
  {
    var s := text + LINE_END + t;
    assert IsNewline(s, |text|);
    forall j | 0 <= j < |text|
      ensures !IsNewline(s, j)
    {
      assert !IsNewline(text, j);
    }
  }

  lemma Regrouped(b: Byte, line: Bytes, t: Bytes)
    ensures ([b] + (line + LINE_END) + t)[1..] == line + LINE_END + t && ([b] + (line + LINE_END) + t)[0] == b
    ensures [b] + (line + LINE_END) + t != []
  {
  }

  // ---------- Items without children ----------

  lemma TypeBytes(b: Byte)
    ensures TypeOf(b) == if b == '+' as int then Some(StatusItem)
                         else if b == '-' as int then Some(ErrorItem)
                         else if b == ':' as int then Some(IntegerItem)
                         else if b == '$' as int then Some(BulkItem)
                         else if b == '*' as int then Some(ArrayItem)
                         else None
  {
  }

  /** One line with its type byte, as the type says. */
  lemma LineItem(b: Byte, line: Bytes, t: Bytes, depth: nat)
    requires OneLine(line) && TypeOf(b).Some? && TypeOf(b).value in {StatusItem, ErrorItem, IntegerItem}
    ensures ParseReply([b] + (line + LINE_END) + t, depth) == Done(LineReply(TypeOf(b).value, line), t)
  {
    hide Resp.Number, Newline;
    Regrouped(b, line, t);
    LineRead(line, t);
  }

  lemma StatusRead(text: Bytes, t: Bytes, depth: nat)
    requires OneLine(text)
    ensures ParseReply(Print(Simple(text)) + t, depth) == Done(Status(text), t)
  {
    hide ParseReply, Newline, OneLine, TypeOf, Resp.Number;
    TypeBytes('+' as int);
    LineItem('+' as int, text, t, depth);
  }

  lemma ErrorRead(text: Bytes, t: Bytes, depth: nat)
    requires OneLine(text)
    ensures ParseReply(Print(Failure(text)) + t, depth) == Done(Error(text), t)
  {
    hide ParseReply, Newline, OneLine, TypeOf, Resp.Number;
    TypeBytes('-' as int);
    LineItem('-' as int, text, t, depth);
  }

  lemma IntegerRead(v: int, t: Bytes, depth: nat)
    ensures ParseReply(Print(Number(v)) + t, depth) == Done(Integer(v), t)
  {
    hide ParseReply, Newline, OneLine, TypeOf, Resp.Number;
    TypeBytes(':' as int);
    NumeralOneLine(v);
    SignedNumeralIsDecimal(v);
    NumberSignedDecimal(v);
    LineItem(':' as int, SignedNumeral(v), t, depth);
  }

  /** The bytes of a bulk string are counted; the two behind them may be any. */
  lemma CountedRead(data: Bytes, end: Bytes, t: Bytes, depth: nat)
    requires |end| == 2
    ensures ParseReply(['$' as int] + (Numeral(|data|) + LINE_END) + (data + end) + t, depth) == Done(Str(data), t)
  {
    hide Resp.Number, Newline, OneLine, TypeOf;
    var line, rest := Numeral(|data|), data + end + t;
    NumeralOneLine(|data|);
    SignedNumeralIsDecimal(|data|);
    NumberSignedDecimal(|data|);
    TypeBytes('$' as int);
    Regrouped('$' as int, line, rest);
    LineRead(line, rest);
    assert ['$' as int] + (line + LINE_END) + (data + end) + t == ['$' as int] + (line + LINE_END) + rest;
    assert rest[..|data|] == data && rest[|data| + 2..] == t;
  }

  lemma BulkRead(data: Bytes, t: Bytes, depth: nat)
    ensures ParseReply(Print(Bulk(data)) + t, depth) == Done(Str(data), t)
  {
    hide ParseReply, Numeral;
    CountedRead(data, LINE_END, t, depth);
  }

  /** A bulk string with a negative count is nil. */
  lemma NegativeBulk(line: Bytes, t: Bytes, depth: nat)
    requires OneLine(line) && Resp.Number(line) < 0
    ensures ParseReply(['$' as int] + (line + LINE_END) + t, depth) == Done(Nil, t)
  {
    hide Resp.Number, Newline, OneLine, TypeOf;
    TypeBytes('$' as int);
    Regrouped('$' as int, line, t);
    LineRead(line, t);
  }

  lemma NilNumber()
    ensures Resp.Number(['-' as int, '1' as int]) == -1 && OneLine(['-' as int, '1' as int])
  {
    var line: Bytes := ['-' as int, '1' as int];
    assert line[1..] == ['1' as int] && ['1' as int][1..] == [];
    assert Resp.Digits([], 1) == Some(1);
  }

  lemma NilBulkRead(t: Bytes, depth: nat)
    ensures ParseReply(Print(NilBulk) + t, depth) == Done(Nil, t)
  {
    hide Resp.Number, ParseReply, OneLine;
    NilNumber();
    NegativeBulk(['-' as int, '1' as int], t, depth);
  }

  // ---------- Arrays ----------

  /** An array header within the limit, and one beyond it; only the count -1 makes a nil. */
  lemma HeaderRead(line: Bytes, t: Bytes, depth: nat)
    requires OneLine(line)
    ensures depth == MAX_DEPTH ==> ParseReply(['*' as int] + (line + LINE_END) + t, depth) == Fail(TooDeep)
    ensures depth < MAX_DEPTH && Resp.Number(line) == -1 ==>
              ParseReply(['*' as int] + (line + LINE_END) + t, depth) == Done(Nil, t)
    ensures depth < MAX_DEPTH && Resp.Number(line) <= 0 && Resp.Number(line) != -1 ==>
              ParseReply(['*' as int] + (line + LINE_END) + t, depth) == Done(Array([]), t)
    ensures depth < MAX_DEPTH && Resp.Number(line) > 0 ==>
              ParseReply(['*' as int] + (line + LINE_END) + t, depth) ==
              match ParseElements(t, Resp.Number(line), depth + 1)
              case Done(elements, rest) => Done(Array(elements), rest)
              case More => More
              case Fail(e) => Fail(e)
  {
    hide Resp.Number, Newline, OneLine, TypeOf, ParseElements;
    TypeBytes('*' as int);
    Regrouped('*' as int, line, t);
    LineRead(line, t);
  }

  /** Below eight arrays an array is refused by its type byte, before its count is there. */
  lemma DeepArray(s: Bytes)
    ensures ParseReply(['*' as int] + s, MAX_DEPTH) == Fail(TooDeep)
  {
    hide Resp.Number, Newline, TypeOf;
    TypeBytes('*' as int);
  }

  lemma NilArrayRead(t: Bytes, depth: nat)
    requires depth <= MAX_DEPTH
    ensures ParseReply(Print(NilArray) + t, depth) == Expected(depth == MAX_DEPTH, Nil, t)
  {
    hide ParseReply, Newline, Resp.Number, OneLine;
    NilNumber();
    HeaderRead(['-' as int, '1' as int], t, depth);
  }

  lemma ItemsHeader(items: seq<Wire>, t: Bytes, depth: nat)
    requires depth <= MAX_DEPTH
    ensures var r := ParseReply(Print(Items(items)) + t, depth);
            if depth == MAX_DEPTH then r == Fail(TooDeep)
            else if items == [] then r == Done(Array([]), t)
            else r == match ParseElements(PrintAll(items) + t, |items|, depth + 1)
                      case Done(elements, rest) => Done(Array(elements), rest)
                      case More => More
                      case Fail(e) => Fail(e)
  {
    hide ParseReply, ParseElements, Newline, Resp.Number, OneLine;
    var line := Numeral(|items|);
    NumeralOneLine(|items|);
    SignedNumeralIsDecimal(|items|);
    NumberSignedDecimal(|items|);
    HeaderRead(line, PrintAll(items) + t, depth);
    assert Print(Items(items)) + t == ['*' as int] + (line + LINE_END) + (PrintAll(items) + t);
    assert items == [] ==> PrintAll(items) + t == t;
  }

  /** What reading an item that was written gives: the reply, or the error of a header that is too deep. */
  function Expected<T>(deep: bool, value: T, rest: Bytes): Outcome<T> {
    if deep then Fail(TooDeep) else Done(value, rest)
  }

  /**
   Whatever is written is read back, whatever follows it, up to the first array header that has eight others
   around it, which is the depth error.
   */
  lemma {:induction false} ReplyRead(w: Wire, t: Bytes, depth: nat)
    requires Printable(w) && depth <= MAX_DEPTH
    ensures ParseReply(Print(w) + t, depth) == Expected(depth + Depth(w) > MAX_DEPTH, Meaning(w), t)
    decreases w, 1, 0
  {
    hide ParseReply, ParseElements, Print, OneLine;
    match w
    case Simple(text) => StatusRead(text, t, depth);
    case Failure(text) => ErrorRead(text, t, depth);
    case Number(v) => IntegerRead(v, t, depth);
    case Bulk(data) => BulkRead(data, t, depth);
    case NilBulk => NilBulkRead(t, depth);
    case NilArray => NilArrayRead(t, depth);
    case Items(items) =>
      ItemsHeader(items, t, depth);
      if depth < MAX_DEPTH {
        ElementsRead(w, items, t, depth + 1);
      }
  }

  lemma FirstElement(s: Bytes, n: nat, depth: nat)
    requires n > 0
    ensures var first := ParseReply(s, depth);
            var o := ParseElements(s, n, depth);
            && (first.Fail? ==> o == Fail(first.error))
            && (first.Done? ==>
                  var others := ParseElements(first.rest, n - 1, depth);
                  o == if others.Done? then Done([first.value] + others.value, others.rest) else others)
  {
    hide ParseReply;
  }

  lemma {:induction false} ElementsRead(w: Wire, ws: seq<Wire>, t: Bytes, depth: nat)
    requires AllPrintable(ws) && depth <= MAX_DEPTH && forall i | 0 <= i < |ws| :: ws[i] < w
    ensures ParseElements(PrintAll(ws) + t, |ws|, depth) ==
            Expected(depth + DepthAll(ws) > MAX_DEPTH, MeaningAll(ws), t)
    decreases w, 0, |ws|
  {
    hide ParseReply;
    if ws == [] {
      assert PrintAll(ws) + t == t;
    } else {
      var rest := PrintAll(ws[1..]) + t;
      assert PrintAll(ws) + t == Print(ws[0]) + rest;
      ReplyRead(ws[0], rest, depth);
      FirstElement(PrintAll(ws) + t, |ws|, depth);
      hide ParseElements, Print, Printable, Depth, Meaning;
      ElementsRead(w, ws[1..], t, depth);
    }
  }

  // ---------- Whole streams ----------

  /** Replies that were written one after the other are what a stream delivers first, whatever follows them. */
  lemma {:induction false} StreamRead(ws: seq<Wire>, t: Bytes)
    requires AllPrintable(ws) && DepthAll(ws) <= MAX_DEPTH
    ensures var rest := ParseStream(t);
            ParseStream(PrintAll(ws) + t) == rest.(replies := MeaningAll(ws) + rest.replies)
    decreases |ws|
  {
    hide ParseReply, Print, Printable, Depth, Meaning;
    if ws == [] {
      assert PrintAll(ws) + t == t && [] + ParseStream(t).replies == ParseStream(t).replies;
    } else {
      var more := PrintAll(ws[1..]) + t;
      assert PrintAll(ws) + t == Print(ws[0]) + more;
      ReplyRead(ws[0], more, 0);
      StreamRead(ws[1..], t);
      var rest := ParseStream(t).replies;
      assert [Meaning(ws[0])] + (MeaningAll(ws[1..]) + rest) == MeaningAll(ws) + rest;
    }
  }

  /** As long as a byte of it is missing, a reply is awaited. */
  lemma PartWaits(w: Wire, s: Bytes, depth: nat)
    requires Printable(w) && depth + Depth(w) <= MAX_DEPTH && s < Print(w)
    ensures ParseReply(s, depth) == More
  {
    hide ParseReply, Print, Printable, Depth;
    var t := Print(w)[|s|..];
    assert Print(w) == s + t && Print(w) + [] == Print(w);
    ReplyRead(w, [], depth);
    if ParseReply(s, depth) != More {
      ReplyExtends(s, t, depth);
    }
  }

  /** Behind any replies that were written, a part of another one is left for later. */
  lemma StreamWaits(ws: seq<Wire>, w: Wire, s: Bytes)
    requires AllPrintable(ws) && DepthAll(ws) <= MAX_DEPTH && Printable(w) && Depth(w) <= MAX_DEPTH && s < Print(w)
    ensures ParseStream(PrintAll(ws) + s) == Stream(MeaningAll(ws), None, s)
  {
    hide ParseReply, PrintAll, Print, MeaningAll, Printable, Depth;
    StreamRead(ws, s);
    PartWaits(w, s, 0);
    assert MeaningAll(ws) + [] == MeaningAll(ws);
  }

  predicate IsTypeByte(b: Byte) {
    b in {'+' as int, '-' as int, ':' as int, '$' as int, '*' as int}
  }

  /** No byte is ever refused as a type byte that is one. */
  lemma {:induction false} RefusedBody(ty: ItemType, s: Bytes, depth: nat, b: Byte)
    requires ParseBody(ty, s, depth) == Fail(BadTypeByte(b))
    ensures !IsTypeByte(b)
    decreases |s|, 0
  {
    var head := ReadHead(ty, s, depth);
    if head.Done? && head.value.Open? {
      RefusedElements(head.rest, head.value.elements, depth + 1, b);
    }
  }

  lemma {:induction false} RefusedElements(s: Bytes, n: nat, depth: nat, b: Byte)
    requires ParseElements(s, n, depth) == Fail(BadTypeByte(b))
    ensures !IsTypeByte(b)
    decreases |s|, 1
  {
    hide ParseBody;
    var first := ParseReply(s, depth);
    if first.Done? {
      RefusedElements(first.rest, n - 1, depth, b);
    } else if TypeOf(s[0]).Some? {
      RefusedBody(TypeOf(s[0]).value, s[1..], depth, b);
    } else {
      TypeBytes(s[0]);
    }
  }

  /** A byte where a reply begins is refused if and only if it is none of the five type bytes. */
  lemma BadTypeByteExactly(s: Bytes, depth: nat)
    requires s != []
    ensures ParseReply(s, depth) == Fail(BadTypeByte(s[0])) <==> !IsTypeByte(s[0])
    ensures forall b | ParseReply(s, depth) == Fail(BadTypeByte(b)) :: !IsTypeByte(b)
  {
    hide ParseBody;
    TypeBytes(s[0]);
    forall b | ParseReply(s, depth) == Fail(BadTypeByte(b))
      ensures !IsTypeByte(b)
    {
      if TypeOf(s[0]).Some? {
        RefusedBody(TypeOf(s[0]).value, s[1..], depth, b);
      }
    }
  }

  /** Behind any replies that were written, such a byte ends the stream with its error. */
  lemma StreamStops(ws: seq<Wire>, b: Byte, t: Bytes)
    requires AllPrintable(ws) && DepthAll(ws) <= MAX_DEPTH && !IsTypeByte(b)
    ensures ParseStream(PrintAll(ws) + ([b] + t)) == Stream(MeaningAll(ws), Some(BadTypeByte(b)), [b] + t)
  {
    hide ParseReply, PrintAll, MeaningAll;
    StreamRead(ws, [b] + t);
    BadTypeByteExactly([b] + t, 0);
    assert MeaningAll(ws) + [] == MeaningAll(ws);
  }

  // ---------- Header numbers ----------

  /** The number that digits stand for, the last one counting once and each other ten times the next. */
  function Value(digits: Bytes): int {
    if digits == [] then 0 else 10 * Value(digits[..|digits| - 1]) + (digits[|digits| - 1] - '0' as int)
  }

  predicate AllDigits(s: Bytes) {
    forall i | 0 <= i < |s| :: '0' as int <= s[i] <= '9' as int
  }

  lemma {:induction false} DigitsValue(digits: Bytes)
    requires AllDigits(digits)
    ensures Resp.Digits(digits, 0) == Some(Value(digits)) && Value(digits) >= 0
    decreases |digits|
  {
    if digits != [] {
      var n := |digits| - 1;
      DigitsValue(digits[..n]);
      assert digits[n] in digits && digits == digits[..n] + [digits[n]];
      DigitsAppend(digits[..n], digits[n], 0);
    }
  }

  /** Digits are read up to the end of the line or up to a CR in it. */
  lemma {:induction false} DigitsEnd(digits: Bytes, tail: Bytes, v: nat)
    requires AllDigits(digits) && (tail == [] || tail[0] == '\r' as int)
    ensures Resp.Digits(digits + tail, v) == Resp.Digits(digits, v)
    decreases |digits|
  {
    if digits == [] {
      assert digits + tail == tail;
    } else {
      assert (digits + tail)[1..] == digits[1..] + tail && digits[0] in digits;
      DigitsEnd(digits[1..], tail, 10 * v + (digits[0] - ZERO));
    }
  }

  lemma {:induction false} DigitsRefused(digits: Bytes, c: Byte, tail: Bytes, v: nat)
    requires AllDigits(digits) && c != '\r' as int && !('0' as int <= c <= '9' as int)
    ensures Resp.Digits(digits + ([c] + tail), v) == None
    decreases |digits|
  {
    var s := digits + ([c] + tail);
    if digits == [] {
      assert s[0] == c;
    } else {
      assert s[1..] == digits[1..] + ([c] + tail) && digits[0] in digits;
      DigitsRefused(digits[1..], c, tail, 10 * v + (digits[0] - ZERO));
    }
  }

  datatype Sign = NoSign | Plus | Minus

  function SignText(sign: Sign): Bytes {
    match sign
    case NoSign => []
    case Plus => ['+' as int]
    case Minus => ['-' as int]
  }

  lemma SignSplit(sign: Sign, s: Bytes)
    requires sign.NoSign? ==> s == [] || s[0] !in {'+' as int, '-' as int}
    ensures Resp.Number(SignText(sign) + s) ==
            match Resp.Digits(s, 0) { case None => -1 case Some(v) => var n: int := v; if sign.Minus? then -n else n }
  {
    hide Resp.Digits;
    var line := SignText(sign) + s;
    assert sign.NoSign? ==> line == s;
    assert !sign.NoSign? ==> line[1..] == s;
  }

  /** A header number is an optional sign and digits; none at all read as zero, and leading zeros are allowed. */
  lemma NumberRead(sign: Sign, digits: Bytes, tail: Bytes)
    requires AllDigits(digits) && (tail == [] || tail[0] == '\r' as int)
    ensures Resp.Number(SignText(sign) + (digits + tail)) == if sign.Minus? then -Value(digits) else Value(digits)
  {
    var s := digits + tail;
    assert s != [] ==> s[0] in digits || s[0] == '\r' as int;
    SignSplit(sign, s);
    DigitsEnd(digits, tail, 0);
    DigitsValue(digits);
  }

  /** Any other byte makes the number -1. */
  lemma NumberRefused(sign: Sign, digits: Bytes, c: Byte, tail: Bytes)
    requires AllDigits(digits) && c != '\r' as int && !('0' as int <= c <= '9' as int)
    requires sign.NoSign? && digits == [] ==> c !in {'+' as int, '-' as int}
    ensures Resp.Number(SignText(sign) + (digits + ([c] + tail))) == -1
  {
    var s := digits + ([c] + tail);
    assert s[0] == c || s[0] in digits;
    SignSplit(sign, s);
    DigitsRefused(digits, c, tail, 0);
  }
}
