/**
 The language of argument lines: what a line is made of, which arguments it stands for, and the proof that
 `sdssplitargs` reads exactly that, and refuses exactly the lines with an open quote or with something right
 behind a closing one.
 */
module SdsWords {
  import opened ByteStrings
  import SdsArgs

  // ---------- Syntax ----------

  /** What stands between double quotes: a byte as it is, a byte behind a backslash, or two hexadecimal digits. */
  datatype Item = Raw(c: Byte) | Slashed(c: Byte) | Hex(high: Byte, low: Byte)

  /** How a word ends. */
  datatype Quote = NoQuote | Double(items: seq<Item>) | Single(text: Bytes)

  /** Bytes without quotes, and right behind them a quoted text, or none. */
  datatype Word = Word(plain: Bytes, quote: Quote)

  datatype Spaced = Spaced(blanks: Bytes, word: Word)

  /** What makes a line unreadable: a quote that is left open, or a quoted word with something right behind it. */
  datatype Bad =
    | OpenDouble(plain: Bytes, items: seq<Item>, slash: bool)
    | OpenSingle(plain: Bytes, text: Bytes)
    | Touching(word: Word, rest: Bytes)

  predicate IsBlank(c: Byte) {
    c == ' ' as int || 9 <= c <= 13
  }

  /** The bytes that end a word without quotes: no vertical tab and no form feed. */
  predicate EndsWord(c: Byte) {
    c in {' ' as int, '\n' as int, '\r' as int, '\t' as int}
  }

  predicate PlainByte(c: Byte) {
    !EndsWord(c) && c != '"' as int && c != '\'' as int
  }

  predicate IsHex(c: Byte) {
    '0' as int <= c <= '9' as int || 'a' as int <= c <= 'f' as int || 'A' as int <= c <= 'F' as int
  }

  function HexValue(c: Byte): (d: nat)
    requires IsHex(c)
    ensures d < 16
  {
    if c <= '9' as int then c - '0' as int
    else if c <= 'F' as int then 10 + c - 'A' as int
    else 10 + c - 'a' as int
  }

  function ItemText(i: Item): (s: Bytes)
    ensures s != []
  {
    match i
    case Raw(c) => [c]
    case Slashed(c) => ['\\' as int, c]
    case Hex(high, low) => ['\\' as int, 'x' as int, high, low]
  }

  function ItemsText(items: seq<Item>): Bytes {
    if items == [] then [] else ItemText(items[0]) + ItemsText(items[1..])
  }

  predicate ProperItem(i: Item, next: Bytes) {
    match i
    case Raw(c) => c != '"' as int && c != '\\' as int
    case Slashed(c) => !(c == 'x' as int && |next| >= 2 && IsHex(next[0]) && IsHex(next[1]))
    case Hex(high, low) => IsHex(high) && IsHex(low)
  }

  predicate ProperItems(items: seq<Item>) {
    items == [] || (ProperItem(items[0], ItemsText(items[1..])) && ProperItems(items[1..]))
  }

  function ItemValue(i: Item): Byte {
    match i
    case Raw(c) => c
    case Slashed(c) =>
      if c == 'n' as int then 10
      else if c == 'r' as int then 13
      else if c == 't' as int then 9
      else if c == 'b' as int then 8
      else if c == 'a' as int then 7
      else c
    case Hex(high, low) => if IsHex(high) && IsHex(low) then 16 * HexValue(high) + HexValue(low) else 0
  }

  function ItemsValue(items: seq<Item>): Bytes {
    if items == [] then [] else [ItemValue(items[0])] + ItemsValue(items[1..])
  }

  /** Between single quotes only the quote itself is written with a backslash. */
  function Coded(text: Bytes): Bytes {
    if text == [] then []
    else (if text[0] == '\'' as int then ['\\' as int, '\'' as int] else [text[0]]) + Coded(text[1..])
  }

  predicate EndsInSlash(text: Bytes) {
    text != [] && text[|text| - 1] == '\\' as int
  }

  predicate AllPlain(s: Bytes) {
    (forall i | 0 <= i < |s| :: PlainByte(s[i])) && (s != [] ==> !IsBlank(s[0]))
  }

  predicate AllBlank(s: Bytes) {
    forall i | 0 <= i < |s| :: IsBlank(s[i])
  }

  function QuoteText(q: Quote): Bytes {
    match q
    case NoQuote => []
    case Double(items) => ['"' as int] + (ItemsText(items) + ['"' as int])
    case Single(text) => ['\'' as int] + (Coded(text) + ['\'' as int])
  }

  function WordText(w: Word): Bytes {
    w.plain + QuoteText(w.quote)
  }

  function WordValue(w: Word): Bytes {
    w.plain + match w.quote { case NoQuote => [] case Double(items) => ItemsValue(items) case Single(text) => text }
  }

  predicate ProperWord(w: Word) {
    && AllPlain(w.plain)
    && match w.quote
       case NoQuote => w.plain != []
       case Double(items) => ProperItems(items)
       case Single(text) => !EndsInSlash(text)
  }

  /** What may follow a word. */
  predicate Apart(w: Word, next: Bytes) {
    next == [] || if w.quote.NoQuote? then EndsWord(next[0]) else IsBlank(next[0])
  }

  function LineText(ws: seq<Spaced>, tail: Bytes): Bytes {
    if ws == [] then tail else ws[0].blanks + (WordText(ws[0].word) + LineText(ws[1..], tail))
  }

  predicate ProperWords(ws: seq<Spaced>, tail: Bytes) {
    || ws == []
    || (&& AllBlank(ws[0].blanks) && ProperWord(ws[0].word)
        && Apart(ws[0].word, LineText(ws[1..], tail)) && ProperWords(ws[1..], tail))
  }

  function Values(ws: seq<Spaced>): seq<Bytes> {
    if ws == [] then [] else [WordValue(ws[0].word)] + Values(ws[1..])
  }

  function BadText(bad: Bad): Bytes {
    match bad
    case OpenDouble(plain, items, slash) => plain + (['"' as int] + (ItemsText(items) + if slash then ['\\' as int] else []))
    case OpenSingle(plain, text) => plain + (['\'' as int] + Coded(text))
    case Touching(w, rest) => WordText(w) + rest
  }

  predicate ProperBad(bad: Bad) {
    match bad
    case OpenDouble(plain, items, _) => AllPlain(plain) && ProperItems(items)
    case OpenSingle(plain, _) => AllPlain(plain)
    case Touching(w, rest) => ProperWord(w) && !w.quote.NoQuote? && rest != [] && !IsBlank(rest[0])
  }

  // ---------- Between double quotes ----------

  lemma BlankIsSpace(c: Byte)
    ensures IsBlank(c) == IsSpace(c) && EndsWord(c) == SdsArgs.EndsPlain(c)
    ensures IsHex(c) == IsHexDigit(c) && (IsHex(c) ==> HexValue(c) == SdsArgs.HexDigitToInt(c))
  {
  }

  /** One item is read as its value; `next` is what the item must not be confused with. */
  lemma ItemRead(current: Bytes, i: Item, next: Bytes, t: Bytes)
    requires ProperItem(i, next) && next <= t && (|next| < 2 ==> |t| > |next| ==> !IsHex(t[|next|]))
    ensures SdsArgs.Token(SdsArgs.Quoted, current, ItemText(i) + t) ==
            SdsArgs.Token(SdsArgs.Quoted, current + [ItemValue(i)], t)
  {
    hide SdsArgs.Token, SdsArgs.HexDigitToInt, HexValue, SdsArgs.ClosedBy;
    var s := ItemText(i) + t;
    SdsArgs.TokenQuoted(current, s);
    match i
    case Raw(c) => assert s[1..] == t;
    case Slashed(c) =>
      assert s[2..] == t && s[0] == '\\' as int && s[1] == c;
      SlashedRead(current, c, next, t);
    case Hex(high, low) =>
      BlankIsSpace(high);
      BlankIsSpace(low);
      assert s[4..] == t && s[2] == high && s[3] == low;
  }

  lemma SlashedRead(current: Bytes, c: Byte, next: Bytes, t: Bytes)
    requires ProperItem(Slashed(c), next) && next <= t && (|next| < 2 ==> |t| > |next| ==> !IsHex(t[|next|]))
    ensures SdsArgs.Token(SdsArgs.Quoted, current, ['\\' as int, c] + t) ==
            SdsArgs.Token(SdsArgs.Quoted, current + [ItemValue(Slashed(c))], t)
  {
    hide SdsArgs.HexDigitToInt, HexValue, SdsArgs.ClosedBy, IsHexDigit, IsHex;
    var s := ['\\' as int, c] + t;
    assert s[2..] == t;
    if |t| >= 2 {
      BlankIsSpace(t[0]);
      BlankIsSpace(t[1]);
      assert s[2] == t[0] && s[3] == t[1];
      assert |next| > 0 ==> next[0] == t[0];
      assert |next| > 1 ==> next[1] == t[1];
    }
    assert !SdsArgs.HexEscape(s);
  }

  /** Items are read as their values up to a byte that is no hexadecimal digit. */
  lemma {:induction false} ItemsRead(current: Bytes, items: seq<Item>, t: Bytes)
    requires ProperItems(items) && (t != [] ==> !IsHex(t[0]))
    ensures SdsArgs.Token(SdsArgs.Quoted, current, ItemsText(items) + t) ==
            SdsArgs.Token(SdsArgs.Quoted, current + ItemsValue(items), t)
    decreases |items|
  {
    hide SdsArgs.Token, ItemText, ItemValue, ProperItem, IsHex;
    if items == [] {
      assert ItemsText(items) + t == t && current + [] == current;
    } else {
      var next := ItemsText(items[1..]);
      assert ItemsText(items) + t == ItemText(items[0]) + (next + t);
      assert |next + t| > |next| ==> (next + t)[|next|] == t[0];
      ItemRead(current, items[0], next, next + t);
      ItemsRead(current + [ItemValue(items[0])], items[1..], t);
      assert current + [ItemValue(items[0])] + ItemsValue(items[1..]) == current + ItemsValue(items);
    }
  }

  lemma DoubleRead(current: Bytes, items: seq<Item>, t: Bytes)
    requires ProperItems(items)
    ensures SdsArgs.Token(SdsArgs.Quoted, current, ItemsText(items) + (['"' as int] + t)) ==
            if t == [] || IsBlank(t[0]) then Some((current + ItemsValue(items), t)) else None
  {
    hide SdsArgs.HexDigitToInt, HexValue, ItemsText, ItemsValue, ProperItems;
    var s := ['"' as int] + t;
    ItemsRead(current, items, s);
    assert s[1..] == t;
    if t != [] { BlankIsSpace(t[0]); }
  }

  lemma DoubleOpen(current: Bytes, items: seq<Item>, slash: bool)
    requires ProperItems(items)
    ensures SdsArgs.Token(SdsArgs.Quoted, current, ItemsText(items) + if slash then ['\\' as int] else []) == None
  {
    hide SdsArgs.HexDigitToInt, HexValue, ItemsText, ItemsValue, ProperItems;
    var s: Bytes := if slash then ['\\' as int] else [];
    ItemsRead(current, items, s);
    var all := current + ItemsValue(items);
    if slash {
      assert s[1..] == [];
      assert SdsArgs.Token(SdsArgs.Quoted, all + ['\\' as int], []) == None;
    }
  }

  /** The item in front. */
  lemma FirstItem(s: Bytes) returns (i: Item, t: Bytes)
    requires s != [] && s[0] != '"' as int && s != ['\\' as int]
    ensures s == ItemText(i) + t && |t| < |s|
    ensures forall next | next <= t :: ProperItem(i, next)
  {
    hide IsHex;
    if s[0] != '\\' as int {
      i, t := Raw(s[0]), s[1..];
    } else if s[1] == 'x' as int && |s| >= 4 && IsHex(s[2]) && IsHex(s[3]) {
      i, t := Hex(s[2], s[3]), s[4..];
    } else {
      i, t := Slashed(s[1]), s[2..];
    }
  }

  /** Whatever comes behind a double quote is items up to a closing quote, or up to the end. */
  lemma {:induction false} DoubleSplit(s: Bytes) returns (items: seq<Item>, closed: bool, t: Bytes)
    ensures ProperItems(items)
    ensures if closed then s == ItemsText(items) + (['"' as int] + t) else s == ItemsText(items) + t
    ensures !closed ==> t == [] || t == ['\\' as int]
    decreases |s|
  {
    hide IsHex, ItemText, ProperItem;
    if s == [] || s == ['\\' as int] {
      items, closed, t := [], false, s;
      assert ItemsText([]) + s == s;
    } else if s[0] == '"' as int {
      items, closed, t := [], true, s[1..];
      assert s == ['"' as int] + t;
    } else {
      var i, rest := FirstItem(s);
      var others;
      others, closed, t := DoubleSplit(rest);
      items := [i] + others;
      assert items[1..] == others;
      assert ItemsText(others) <= rest;
      assert ItemText(i) + (ItemsText(others) + t) == ItemsText(items) + t;
      var quoted := ['"' as int] + t;
      assert ItemText(i) + (ItemsText(others) + quoted) == ItemsText(items) + quoted;
    }
  }

  // ---------- Between single quotes ----------

  lemma SingleByte(current: Bytes, c: Byte, t: Bytes)
    requires c != '\'' as int && (c == '\\' as int ==> t == [] || t[0] != '\'' as int)
    ensures SdsArgs.Token(SdsArgs.Single, current, [c] + t) == SdsArgs.Token(SdsArgs.Single, current + [c], t)
  {
    var s := [c] + t;
    assert s[1..] == t && (|s| >= 2 ==> s[1] == t[0]);
  }

  lemma SingleSlash(current: Bytes, t: Bytes)
    ensures SdsArgs.Token(SdsArgs.Single, current, ['\\' as int, '\'' as int] + t) ==
            SdsArgs.Token(SdsArgs.Single, current + ['\'' as int], t)
  {
    var s := ['\\' as int, '\'' as int] + t;
    assert s[2..] == t;
  }

  lemma SingleClose(current: Bytes, t: Bytes)
    ensures SdsArgs.Token(SdsArgs.Single, current, []) == None
    ensures SdsArgs.Token(SdsArgs.Single, current, ['\'' as int] + t) ==
            if t == [] || IsBlank(t[0]) then Some((current, t)) else None
  {
    var s := ['\'' as int] + t;
    assert s[1..] == t;
    if t != [] { BlankIsSpace(t[0]); }
  }

  /** A byte of the text is never mistaken for a coded quote. */
  lemma CodedStart(text: Bytes, t: Bytes)
    requires text != [] && (EndsInSlash(text) ==> t == [] || t[0] != '\'' as int)
    ensures var rest := Coded(text[1..]) + t;
            text[0] == '\\' as int ==> rest == [] || rest[0] != '\'' as int
  {
    if |text| > 1 {
      assert text[1..][0] == text[1];
    } else {
      assert Coded(text[1..]) + t == t;
    }
  }

  lemma CodedByte(current: Bytes, text: Bytes, t: Bytes)
    requires text != [] && (EndsInSlash(text) ==> t == [] || t[0] != '\'' as int)
    ensures SdsArgs.Token(SdsArgs.Single, current, Coded(text) + t) ==
            SdsArgs.Token(SdsArgs.Single, current + [text[0]], Coded(text[1..]) + t)
  {
    hide SdsArgs.Token;
    var rest := Coded(text[1..]) + t;
    CodedStart(text, t);
    if text[0] == '\'' as int {
      assert Coded(text) + t == ['\\' as int, '\'' as int] + rest;
      SingleSlash(current, rest);
    } else {
      assert Coded(text) + t == [text[0]] + rest;
      SingleByte(current, text[0], rest);
    }
  }

  lemma SlashStays(text: Bytes)
    requires text != [] && EndsInSlash(text[1..])
    ensures EndsInSlash(text)
  {
  }

  /** A coded text is read up to what follows it, unless a backslash at its end meets a quote. */
  lemma {:induction false} CodedRead(current: Bytes, text: Bytes, t: Bytes)
    requires EndsInSlash(text) ==> t == [] || t[0] != '\'' as int
    ensures SdsArgs.Token(SdsArgs.Single, current, Coded(text) + t) == SdsArgs.Token(SdsArgs.Single, current + text, t)
    decreases |text|
  {
    hide SdsArgs.Token, EndsInSlash;
    if text == [] {
      assert Coded(text) + t == t && current + text == current;
    } else {
      CodedByte(current, text, t);
      if EndsInSlash(text[1..]) { SlashStays(text); }
      CodedRead(current + [text[0]], text[1..], t);
      assert current + [text[0]] + text[1..] == current + text;
    }
  }

  lemma SingleRead(current: Bytes, text: Bytes, t: Bytes)
    requires !EndsInSlash(text)
    ensures SdsArgs.Token(SdsArgs.Single, current, Coded(text) + (['\'' as int] + t)) ==
            if t == [] || IsBlank(t[0]) then Some((current + text, t)) else None
  {
    hide SdsArgs.Token, Coded, EndsInSlash;
    CodedRead(current, text, ['\'' as int] + t);
    SingleClose(current + text, t);
  }

  lemma SingleOpen(current: Bytes, text: Bytes)
    ensures SdsArgs.Token(SdsArgs.Single, current, Coded(text)) == None
  {
    hide SdsArgs.Token, Coded, EndsInSlash;
    CodedRead(current, text, []);
    SingleClose(current + text, []);
    assert Coded(text) + [] == Coded(text);
  }

  /** Whatever comes behind a single quote is a coded text up to a closing quote, or up to the end. */
  lemma {:induction false} SingleSplit(s: Bytes) returns (text: Bytes, closed: bool, t: Bytes)
    ensures if closed then s == Coded(text) + (['\'' as int] + t) && !EndsInSlash(text) else s == Coded(text)
    decreases |s|
  {
    if s == [] {
      text, closed, t := [], false, [];
    } else if s[0] == '\'' as int {
      text, closed, t := [], true, s[1..];
      assert s == ['\'' as int] + t;
    } else if |s| >= 2 && s[0] == '\\' as int && s[1] == '\'' as int {
      var rest;
      rest, closed, t := SingleSplit(s[2..]);
      text := ['\'' as int] + rest;
      assert text[1..] == rest && s == ['\\' as int, '\'' as int] + s[2..];
    } else {
      var rest;
      rest, closed, t := SingleSplit(s[1..]);
      text := [s[0]] + rest;
      assert text[1..] == rest && s == [s[0]] + s[1..];
    }
  }

  // ---------- One word ----------

  lemma {:induction false} PlainRead(current: Bytes, plain: Bytes, t: Bytes)
    requires forall i | 0 <= i < |plain| :: PlainByte(plain[i])
    ensures SdsArgs.Token(SdsArgs.Plain, current, plain + t) == SdsArgs.Token(SdsArgs.Plain, current + plain, t)
    decreases |plain|
  {
    if plain == [] {
      assert plain + t == t && current + plain == current;
    } else {
      var s := plain + t;
      assert s[0] == plain[0] && s[1..] == plain[1..] + t;
      BlankIsSpace(plain[0]);
      PlainRead(current + [plain[0]], plain[1..], t);
      assert current + [plain[0]] + plain[1..] == current + plain;
    }
  }

  lemma PlainEnd(current: Bytes, t: Bytes)
    requires t == [] || EndsWord(t[0])
    ensures SdsArgs.Token(SdsArgs.Plain, current, t) == Some((current, if t == [] then t else t[1..]))
  {
  }

  lemma QuoteBegins(current: Bytes, t: Bytes)
    ensures SdsArgs.Token(SdsArgs.Plain, current, ['"' as int] + t) == SdsArgs.Token(SdsArgs.Quoted, current, t)
    ensures SdsArgs.Token(SdsArgs.Plain, current, ['\'' as int] + t) == SdsArgs.Token(SdsArgs.Single, current, t)
  {
    assert (['"' as int] + t)[1..] == t && (['\'' as int] + t)[1..] == t;
  }

  /** A word is read as its value: what is glued together in it is joined. */
  lemma WordRead(w: Word, t: Bytes)
    requires ProperWord(w) && (w.quote.NoQuote? ==> Apart(w, t))
    ensures SdsArgs.Token(SdsArgs.Plain, [], WordText(w) + t) ==
            if w.quote.NoQuote? then Some((WordValue(w), if t == [] then t else t[1..]))
            else if Apart(w, t) then Some((WordValue(w), t))
            else None
  {
    hide SdsArgs.Token, Coded, ItemsText, ItemsValue, ProperItems, EndsInSlash;
    assert WordText(w) + t == w.plain + (QuoteText(w.quote) + t);
    assert [] + w.plain == w.plain;
    PlainRead([], w.plain, QuoteText(w.quote) + t);
    match w.quote
    case NoQuote =>
      assert [] + t == t && w.plain + [] == w.plain;
      PlainEnd(w.plain, t);
    case Double(items) =>
      var s := ItemsText(items) + (['"' as int] + t);
      assert QuoteText(w.quote) + t == ['"' as int] + s;
      QuoteBegins(w.plain, s);
      DoubleRead(w.plain, items, t);
    case Single(text) =>
      var s := Coded(text) + (['\'' as int] + t);
      assert QuoteText(w.quote) + t == ['\'' as int] + s;
      QuoteBegins(w.plain, s);
      SingleRead(w.plain, text, t);
  }

  lemma BadRead(bad: Bad)
    requires ProperBad(bad)
    ensures SdsArgs.Token(SdsArgs.Plain, [], BadText(bad)) == None
  {
    hide SdsArgs.Token, Coded, ItemsText, ItemsValue, ProperItems, EndsInSlash, WordText, WordValue;
    match bad
    case OpenDouble(plain, items, slash) =>
      var s := ItemsText(items) + if slash then ['\\' as int] else [];
      PlainRead([], plain, ['"' as int] + s);
      QuoteBegins([] + plain, s);
      DoubleOpen([] + plain, items, slash);
    case OpenSingle(plain, text) =>
      PlainRead([], plain, ['\'' as int] + Coded(text));
      QuoteBegins([] + plain, Coded(text));
      SingleOpen([] + plain, text);
    case Touching(w, rest) => WordRead(w, rest);
  }

  /** The plain bytes in front. */
  lemma {:induction false} PlainSplit(s: Bytes) returns (plain: Bytes, t: Bytes)
    ensures s == plain + t && (forall i | 0 <= i < |plain| :: PlainByte(plain[i]))
    ensures t == [] || EndsWord(t[0]) || t[0] == '"' as int || t[0] == '\'' as int
    decreases |s|
  {
    if s == [] || !PlainByte(s[0]) {
      plain, t := [], s;
    } else {
      var rest;
      rest, t := PlainSplit(s[1..]);
      plain := [s[0]] + rest;
    }
  }

  datatype Cut = Whole(word: Word, rest: Bytes) | Broken(bad: Bad)

  /** Where no blank stands, a word stands, or something unreadable. */
  lemma WordSplit(s: Bytes) returns (cut: Cut)
    requires s != [] && !IsBlank(s[0])
    ensures cut.Whole? ==> ProperWord(cut.word) && Apart(cut.word, cut.rest) && s == WordText(cut.word) + cut.rest
    ensures cut.Broken? ==> ProperBad(cut.bad) && s == BadText(cut.bad)
  {
    hide Coded, ItemsText, ProperItems, EndsInSlash, PlainByte;
    var plain, t := PlainSplit(s);
    assert plain != [] ==> plain[0] == s[0];
    if t != [] && t[0] == '"' as int {
      var items, closed, rest := DoubleSplit(t[1..]);
      assert t == ['"' as int] + t[1..];
      if closed {
        var w := Word(plain, Double(items));
        assert s == WordText(w) + rest;
        cut := if Apart(w, rest) then Whole(w, rest) else Broken(Touching(w, rest));
      } else {
        cut := Broken(OpenDouble(plain, items, rest != []));
      }
    } else if t != [] && t[0] == '\'' as int {
      var text, closed, rest := SingleSplit(t[1..]);
      assert t == ['\'' as int] + t[1..];
      if closed {
        var w := Word(plain, Single(text));
        assert s == WordText(w) + rest;
        cut := if Apart(w, rest) then Whole(w, rest) else Broken(Touching(w, rest));
      } else {
        cut := Broken(OpenSingle(plain, text));
      }
    } else {
      assert plain != [];
      cut := Whole(Word(plain, NoQuote), t);
      assert plain + [] == plain;
    }
  }

  // ---------- Whole lines ----------

  lemma {:induction false} BlanksRead(blanks: Bytes, t: Bytes)
    requires AllBlank(blanks)
    ensures SkipSpaces(blanks + t) == SkipSpaces(t)
    decreases |blanks|
  {
    if blanks == [] {
      assert blanks + t == t;
    } else {
      assert (blanks + t)[0] == blanks[0] && (blanks + t)[1..] == blanks[1..] + t;
      BlankIsSpace(blanks[0]);
      BlanksRead(blanks[1..], t);
    }
  }

  lemma ArgsSkip(blanks: Bytes, t: Bytes)
    requires AllBlank(blanks)
    ensures SdsArgs.Args(blanks + t) == SdsArgs.Args(t)
  {
    hide SdsArgs.Token, SdsArgs.Args;
    BlanksRead(blanks, t);
    SdsArgs.ArgsSkipSpaces(blanks + t);
    SdsArgs.ArgsSkipSpaces(t);
  }

  function Before(value: Bytes, more: Option<seq<Bytes>>): Option<seq<Bytes>> {
    match more
    case None => None
    case Some(values) => Some([value] + values)
  }

  lemma WordStart(w: Word)
    requires ProperWord(w)
    ensures WordText(w) != [] && !IsBlank(WordText(w)[0])
  {
  }

  /** A line that begins with a word. */
  lemma FirstWord(w: Word, t: Bytes)
    requires ProperWord(w) && Apart(w, t)
    ensures SdsArgs.Args(WordText(w) + t) == Before(WordValue(w), SdsArgs.Args(t))
  {
    hide SdsArgs.Token, ProperWord, WordText, WordValue;
    var s := WordText(w) + t;
    WordStart(w);
    WordRead(w, t);
    assert s[0] == WordText(w)[0];
    BlankIsSpace(s[0]);
    assert SkipSpaces(s) == s;
    if w.quote.NoQuote? && t != [] {
      BlankIsSpace(t[0]);
      assert t == [t[0]] + t[1..];
      ArgsSkip([t[0]], t[1..]);
    }
  }

  /** What a line is read as: its words, and then whatever its tail is read as. */
  function Joined(values: seq<Bytes>, more: Option<seq<Bytes>>): Option<seq<Bytes>> {
    match more
    case None => None
    case Some(others) => Some(values + others)
  }

  lemma {:induction false} WordsRead(ws: seq<Spaced>, tail: Bytes)
    requires ProperWords(ws, tail)
    ensures SdsArgs.Args(LineText(ws, tail)) == Joined(Values(ws), SdsArgs.Args(tail))
    decreases |ws|
  {
    hide SdsArgs.Args, SdsArgs.Token, WordText, WordValue, ProperWord, Apart;
    if ws == [] {
      var more := SdsArgs.Args(tail);
      assert more.Some? ==> [] + more.value == more.value;
    } else {
      var rest := LineText(ws[1..], tail);
      ArgsSkip(ws[0].blanks, WordText(ws[0].word) + rest);
      FirstWord(ws[0].word, rest);
      WordsRead(ws[1..], tail);
      var more := SdsArgs.Args(tail);
      assert more.Some? ==> [WordValue(ws[0].word)] + (Values(ws[1..]) + more.value) == Values(ws) + more.value;
    }
  }

  lemma BlankTail(tail: Bytes)
    requires AllBlank(tail)
    ensures SdsArgs.Args(tail) == Some([])
  {
    hide SdsArgs.Token;
    ArgsSkip(tail, []);
    assert tail + [] == tail;
  }

  lemma BadTail(blanks: Bytes, bad: Bad)
    requires AllBlank(blanks) && ProperBad(bad)
    ensures SdsArgs.Args(blanks + BadText(bad)) == None
  {
    hide SdsArgs.Token, ProperWord, WordText, ItemsText, Coded, ProperItems;
    ArgsSkip(blanks, BadText(bad));
    BadRead(bad);
    if bad.Touching? { WordStart(bad.word); }
    var s := BadText(bad);
    assert s != [] && !IsBlank(s[0]);
    BlankIsSpace(s[0]);
    assert SkipSpaces(s) == s;
  }

  lemma {:induction false} BlankSplit(s: Bytes) returns (blanks: Bytes, t: Bytes)
    ensures s == blanks + t && AllBlank(blanks) && (t != [] ==> !IsBlank(t[0]))
    decreases |s|
  {
    if s == [] || !IsBlank(s[0]) {
      blanks, t := [], s;
    } else {
      var rest;
      rest, t := BlankSplit(s[1..]);
      blanks := [s[0]] + rest;
    }
  }

  datatype Ending = Blanks | Unreadable(blanks: Bytes, bad: Bad)

  predicate EndsAs(tail: Bytes, e: Ending) {
    match e
    case Blanks => AllBlank(tail)
    case Unreadable(blanks, bad) => AllBlank(blanks) && ProperBad(bad) && tail == blanks + BadText(bad)
  }

  /** Every line is made of words, and then of blanks or of something unreadable. */
  lemma {:induction false} LineSplit(s: Bytes) returns (ws: seq<Spaced>, tail: Bytes, e: Ending)
    ensures ProperWords(ws, tail) && s == LineText(ws, tail) && EndsAs(tail, e)
    decreases |s|
  {
    hide ProperWord, WordText, ProperBad, BadText, Apart;
    var blanks, t := BlankSplit(s);
    if t == [] {
      ws, tail, e := [], s, Blanks;
      assert blanks + [] == blanks;
    } else {
      var cut := WordSplit(t);
      match cut
      case Broken(bad) => ws, tail, e := [], s, Unreadable(blanks, bad);
      case Whole(w, rest) =>
        WordStart(w);
        var others;
        others, tail, e := LineSplit(rest);
        ws := [Spaced(blanks, w)] + others;
        assert ws[1..] == others;
    }
  }

  /**
   A line has arguments if and only if it is made of words and blanks, and the arguments are then the values of
   the words.
   */
  lemma Understood(line: Bytes)
    ensures SdsArgs.Args(line).Some? <==> exists ws, tail :: ProperWords(ws, tail) && AllBlank(tail) && line == LineText(ws, tail)
    ensures forall ws, tail | ProperWords(ws, tail) && AllBlank(tail) && line == LineText(ws, tail) ::
              SdsArgs.Args(line) == Some(Values(ws))
  {
    hide SdsArgs.Args, ProperWords, LineText, ProperBad, BadText, AllBlank;
    var ws, tail, e := LineSplit(line);
    WordsRead(ws, tail);
    match e {
      case Blanks => assert ProperWords(ws, tail) && AllBlank(tail) && line == LineText(ws, tail); BlankTail(tail);
      case Unreadable(blanks, bad) => BadTail(blanks, bad);
    }
    forall ws, tail | ProperWords(ws, tail) && AllBlank(tail) && line == LineText(ws, tail)
      ensures SdsArgs.Args(line) == Some(Values(ws))
    {
      WordsRead(ws, tail);
      BlankTail(tail);
      assert Values(ws) + [] == Values(ws);
    }
  }

  /** A line is refused if and only if, behind some words, a quote is left open or a quoted word has something right behind it. */
  lemma Refused(line: Bytes)
    ensures SdsArgs.Args(line) == None <==>
            exists ws, blanks, bad ::
              AllBlank(blanks) && ProperBad(bad) && ProperWords(ws, blanks + BadText(bad)) && line == LineText(ws, blanks + BadText(bad))
  {
    hide SdsArgs.Args, ProperWords, LineText, ProperBad, BadText, AllBlank;
    var ws, tail, e := LineSplit(line);
    WordsRead(ws, tail);
    match e {
      case Blanks => BlankTail(tail);
      case Unreadable(blanks, bad) =>
        assert AllBlank(blanks) && ProperBad(bad) && ProperWords(ws, blanks + BadText(bad)) && line == LineText(ws, blanks + BadText(bad));
    }
    if ws, blanks, bad :| AllBlank(blanks) && ProperBad(bad) && ProperWords(ws, blanks + BadText(bad))
                          && line == LineText(ws, blanks + BadText(bad)) {
      WordsRead(ws, blanks + BadText(bad));
      BadTail(blanks, bad);
    }
  }

  // ---------- Plain words and quoted texts ----------

  function Spaces(words: seq<Bytes>): Bytes {
    if words == [] then [] else if |words| == 1 then words[0] else words[0] + ([' ' as int] + Spaces(words[1..]))
  }

  predicate Unquoted(w: Bytes) {
    w != [] && forall i | 0 <= i < |w| :: !IsBlank(w[i]) && w[i] != '"' as int && w[i] != '\'' as int
  }

  /** Words without blanks and quotes, joined by spaces, are the arguments. */
  lemma {:induction false} PlainWords(words: seq<Bytes>)
    requires forall w | w in words :: Unquoted(w)
    ensures SdsArgs.Args(Spaces(words)) == Some(words)
  {
    hide SdsArgs.Token, SdsArgs.Args;
    if words == [] {
      BlankTail([]);
    } else {
      var w := Word(words[0], NoQuote);
      assert Unquoted(words[0]);
      assert WordText(w) == words[0] && WordValue(w) == words[0] by { assert words[0] + [] == words[0]; }
      if |words| == 1 {
        FirstWord(w, []);
        BlankTail([]);
        assert words[0] + [] == words[0] && [words[0]] + [] == words;
      } else {
        var rest := Spaces(words[1..]);
        FirstWord(w, [' ' as int] + rest);
        ArgsSkip([' ' as int], rest);
        PlainWords(words[1..]);
        assert [words[0]] + words[1..] == words;
      }
    }
  }

  /** A text between single quotes, each quote in it with a backslash, is read back if and only if it does not end in a backslash. */
  lemma SingleQuoted(text: Bytes)
    ensures SdsArgs.Args(['\'' as int] + (Coded(text) + ['\'' as int])) == Some([text]) <==> !EndsInSlash(text)
  {
    var s := ['\'' as int] + (Coded(text) + ['\'' as int]);
    if !EndsInSlash(text) {
      var w := Word([], Single(text));
      assert WordText(w) == s by { assert [] + s == s; }
      assert WordValue(w) == text by { assert [] + text == text; }
      FirstWord(w, []);
      BlankTail([]);
      assert s + [] == s && [text] + [] == [text];
    } else {
      var n := |text| - 1;
      var quote: Bytes := ['\'' as int];
      var longer := text[..n] + quote;
      CodedSnoc(text[..n], text[n]);
      CodedSnoc(text[..n], '\'' as int);
      assert text == text[..n] + [text[n]];
      assert Coded(text) + quote == Coded(longer);
      BadTail([], OpenSingle([], longer));
      assert [] + BadText(OpenSingle([], longer)) == s;
    }
  }

  lemma {:induction false} CodedSnoc(text: Bytes, c: Byte)
    ensures Coded(text + [c]) == Coded(text) + if c == '\'' as int then ['\\' as int, c] else [c]
    decreases |text|
  {
    if text == [] {
      assert text + [c] == [c] && [c][1..] == [];
    } else {
      assert (text + [c])[1..] == text[1..] + [c];
      CodedSnoc(text[1..], c);
    }
  }

  // ---------- Quoting ----------

  const LOWER_DIGITS: string := "0123456789abcdef"

  /**
   How a byte is quoted: behind a backslash the two bytes with a meaning there and five control bytes, as they are
   all others that are printable, and the rest with two hexadecimal digits.
   */
  lemma QuotedForm(printable: Byte -> bool, c: Byte)
    requires c == 0 ==> !printable(c)
    ensures var e := SdsArgs.Escape(printable, c);
            if c in {'"' as int, '\\' as int, 7, 8, 9, 10, 13} then |e| == 2 && e == ItemText(Slashed(e[1])) && ItemValue(Slashed(e[1])) == c
            else if printable(c) then e == ItemText(Raw(c))
            else
              var i := Hex(LOWER_DIGITS[c / 16] as int, LOWER_DIGITS[c % 16] as int);
              e == ItemText(i) && ItemValue(i) == c
  {
    LowerDigit(c / 16);
    LowerDigit(c % 16);
    hide LOWER_DIGITS;
  }

  lemma LowerDigit(d: nat)
    requires d < 16
    ensures var c := LOWER_DIGITS[d] as int; c < 256 && IsHex(c) && HexValue(c) == d && SdsArgs.HexDigit(d) == c
  {
  }
}
