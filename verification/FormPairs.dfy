/** Forms of percent-coded pairs, as `parse_content` of `src/request_parser.cpp` reads them. */
module FormPairs {
  import opened ByteSearch
  import opened ByteStrings
  import opened HttpRequestParser
  import PercentCoding

  // ---------- Percent-coded pairs ----------

  /** What one turn of the loop adds, and where the next one starts; none when the loop ends. */
  datatype Turn = Turn(added: seq<NameValue>, next: Option<nat>)

  /** A value, which starts at `from`, up to a semicolon or an ampersand. */
  function ValueTurn(name: Bytes, content: Bytes, from: nat): (t: Turn)
    requires from <= |content|
    ensures t.next.Some? ==> from < t.next.value <= |content|
  {
    match FindFirstOf(content, {SEMICOLON, AMPERSAND}, from)
    case None => Turn([NameValue(name, PercentCoding.Decode(content[from..]))], None)
    case Some(end) => Turn([NameValue(name, PercentCoding.Decode(content[from..end]))], Some(end + 1))
  }

  /** A name that no equals sign follows before the ampersand has an empty value; a last name without either is dropped. */
  function TurnAt(content: Bytes, from: nat): (t: Turn)
    requires from <= |content|
    ensures t.next.Some? ==> from < t.next.value <= |content|
  {
    match FindFirstOf(content, {AMPERSAND, EQUALS}, from)
    case None => Turn([], None)
    case Some(pos) =>
      var name := PercentCoding.Decode(content[from..pos]);
      if content[pos] == AMPERSAND then Turn(if pos == from then [] else [NameValue(name, [])], Some(pos + 1))
      else ValueTurn(name, content, pos + 1)
  }

  /** The pairs of a body, from where the scan stands. */
  function Pairs(s: Bytes): seq<NameValue>
    decreases |s|
  {
    var t := TurnAt(s, 0);
    t.added + if t.next.Some? then Pairs(s[t.next.value..]) else []
  }

  /** A pair as a form sends it. */
  function Coded(nv: NameValue): Bytes {
    PercentCoding.Encode(nv.name) + [EQUALS] + PercentCoding.Encode(nv.value)
  }

  /** A form, each pair after the first behind an ampersand. */
  function Form(nvs: seq<NameValue>): Bytes {
    if nvs == [] then []
    else if |nvs| == 1 then Coded(nvs[0])
    else Coded(nvs[0]) + [AMPERSAND] + Form(nvs[1..])
  }

  lemma {:induction false} FindFirstAfter(p: Bytes, t: Bytes, any: set<Byte>)
    requires forall c | c in p :: c !in any
    requires t == [] || t[0] in any
    ensures FindFirstOf(p + t, any, 0) == if t == [] then None else Some(|p|)
  {
    var s := p + t;
    assert forall i | 0 <= i < |p| :: s[i] == p[i];
    if t != [] {
      assert s[|p|] == t[0];
    }
  }

  lemma EncodedApart(s: Bytes)
    ensures forall c | c in PercentCoding.Encode(s) :: c !in {AMPERSAND, EQUALS, SEMICOLON, CR, LF, QUOTE, COLON}
  {
    PercentCoding.EncodedBytes(s);
    forall c | c in PercentCoding.Encode(s)
      ensures c !in {AMPERSAND, EQUALS, SEMICOLON, CR, LF, QUOTE, COLON}
    {
      PercentCoding.Marks(c);
    }
  }

  lemma ValueTurnOf(name: Bytes, p: Bytes, value: Bytes, t: Bytes)
    requires t == [] || t[0] == AMPERSAND
    ensures var v := PercentCoding.Encode(value);
            ValueTurn(name, p + (v + t), |p|) == Turn([NameValue(name, value)], if t == [] then None else Some(|p| + |v| + 1))
  {
    hide FindFirstOf, PercentCoding.Encode, PercentCoding.Decode;
    var v := PercentCoding.Encode(value);
    EncodedApart(value);
    PercentCoding.DecodeUndoesEncode(value);
    var s := p + (v + t);
    assert s[|p|..] == v + t && s[|p|..|p| + |v|] == v;
    FindFirstAfter(v, t, {SEMICOLON, AMPERSAND});
    FindFirstOfShift(s, {SEMICOLON, AMPERSAND}, |p|, 0);
    assert t == [] ==> v + t == v;
  }

  /** The first pair is read back, whatever comes behind its ampersand. */
  lemma TurnOfCoded(nv: NameValue, t: Bytes)
    requires t == [] || t[0] == AMPERSAND
    ensures TurnAt(Coded(nv) + t, 0) == Turn([nv], if t == [] then None else Some(|Coded(nv)| + 1))
  {
    hide FindFirstOf, ValueTurn, PercentCoding.Encode, PercentCoding.Decode;
    var n, v := PercentCoding.Encode(nv.name), PercentCoding.Encode(nv.value);
    EncodedApart(nv.name);
    PercentCoding.DecodeUndoesEncode(nv.name);
    var s := Coded(nv) + t;
    assert s == n + ([EQUALS] + (v + t)) && s == (n + [EQUALS]) + (v + t);
    FindFirstAfter(n, [EQUALS] + (v + t), {AMPERSAND, EQUALS});
    assert s[0..|n|] == n && s[|n|] == EQUALS;
    ValueTurnOf(nv.name, n + [EQUALS], nv.value, t);
  }

  lemma PairsOfCoded(nv: NameValue, t: Bytes)
    requires t == [] || t[0] == AMPERSAND
    ensures Pairs(Coded(nv) + t) == [nv] + (if t == [] then [] else Pairs(t[1..]))
  {
    hide TurnAt, Coded;
    TurnOfCoded(nv, t);
    if t != [] {
      assert (Coded(nv) + t)[|Coded(nv)| + 1..] == t[1..];
    }
  }

  /** Reading undoes coding, for every list of pairs. */
  lemma {:induction false} PairsOfForm(nvs: seq<NameValue>)
    ensures Pairs(Form(nvs)) == nvs
  {
    hide Coded, Pairs;
    if nvs == [] {
      PairsOfNothing();
    } else if |nvs| == 1 {
      PairsOfCoded(nvs[0], []);
      assert Coded(nvs[0]) + [] == Form(nvs) && [nvs[0]] + [] == nvs;
    } else {
      var t := [AMPERSAND] + Form(nvs[1..]);
      PairsOfCoded(nvs[0], t);
      PairsOfForm(nvs[1..]);
      assert Form(nvs) == Coded(nvs[0]) + t && t[1..] == Form(nvs[1..]);
      assert [nvs[0]] + nvs[1..] == nvs;
    }
  }

  lemma PairsOfNothing()
    ensures Pairs([]) == []
  {
  }

  /** A name alone, before an ampersand, gets an empty value. */
  lemma LoneName(name: Bytes, s: Bytes)
    requires name != []
    ensures Pairs(PercentCoding.Encode(name) + ([AMPERSAND] + s)) == [NameValue(name, [])] + Pairs(s)
  {
    hide FindFirstOf, ValueTurn, PercentCoding.Encode, PercentCoding.Decode;
    var n := PercentCoding.Encode(name);
    var body := n + ([AMPERSAND] + s);
    EncodedApart(name);
    PercentCoding.EncodeEmpty(name);
    PercentCoding.DecodeUndoesEncode(name);
    FindFirstAfter(n, [AMPERSAND] + s, {AMPERSAND, EQUALS});
    assert body[0..|n|] == n && body[|n|] == AMPERSAND && body[|n| + 1..] == s;
    assert TurnAt(body, 0) == Turn([NameValue(name, [])], Some(|n| + 1));
  }

  // ---------- Forms with lone names ----------

  /** A pair, or a name that no equals sign follows. */
  datatype Item = Pair(nv: NameValue) | Lone(name: Bytes)

  function ItemText(item: Item): Bytes {
    match item
    case Pair(nv) => Coded(nv)
    case Lone(name) => PercentCoding.Encode(name)
  }

  /** Items, each after the first behind an ampersand. */
  function ItemsText(items: seq<Item>): Bytes {
    if items == [] then []
    else if |items| == 1 then ItemText(items[0])
    else ItemText(items[0]) + ([AMPERSAND] + ItemsText(items[1..]))
  }

  /** A lone name stands for an empty value, and nothing between two ampersands for nothing. */
  function MeantBy(item: Item): seq<NameValue> {
    match item
    case Pair(nv) => [nv]
    case Lone(name) => if name == [] then [] else [NameValue(name, [])]
  }

  function Meant(items: seq<Item>): seq<NameValue> {
    if items == [] then [] else MeantBy(items[0]) + Meant(items[1..])
  }

  /** No lone name ends the form. */
  predicate EndsInPair(items: seq<Item>) {
    items == [] || var last := items[|items| - 1]; last.Pair? || last.name == []
  }

  lemma NothingAlone(s: Bytes)
    ensures Pairs([AMPERSAND] + s) == Pairs(s)
  {
    var body := [AMPERSAND] + s;
    assert TurnAt(body, 0) == Turn([], Some(1)) && body[1..] == s;
    hide TurnAt;
  }

  /** Before an ampersand, every item is read as what it means. */
  lemma ItemRead(item: Item, s: Bytes)
    ensures Pairs(ItemText(item) + ([AMPERSAND] + s)) == MeantBy(item) + Pairs(s)
  {
    hide Pairs, Coded, PercentCoding.Encode;
    match item
    case Pair(nv) =>
      PairsOfCoded(nv, [AMPERSAND] + s);
      assert ([AMPERSAND] + s)[1..] == s;
    case Lone(name) =>
      if name == [] {
        PercentCoding.EncodeEmpty(name);
        NothingAlone(s);
        assert [] + ([AMPERSAND] + s) == [AMPERSAND] + s;
      } else {
        LoneName(name, s);
      }
  }

  /** At the end of the body, a lone name is dropped. */
  lemma LastRead(item: Item)
    ensures Pairs(ItemText(item)) == if item.Pair? then [item.nv] else []
  {
    hide Pairs, Coded, PercentCoding.Encode;
    match item
    case Pair(nv) =>
      PairsOfCoded(nv, []);
      assert Coded(nv) + [] == Coded(nv) && [nv] + [] == [nv];
    case Lone(name) => NoPairs(name);
  }

  /** What is read of a form: all that its items mean, but for a lone name at its end. */
  lemma {:induction false} ItemsRead(items: seq<Item>)
    ensures EndsInPair(items) ==> Pairs(ItemsText(items)) == Meant(items)
    ensures !EndsInPair(items) ==> Meant(items) == Pairs(ItemsText(items)) + [NameValue(items[|items| - 1].name, [])]
  {
    hide Pairs, ItemText, MeantBy;
    if items == [] {
      PairsOfNothing();
    } else if |items| == 1 {
      LastRead(items[0]);
      OneMeant(items[0]);
      assert items == [items[0]];
    } else {
      var rest := items[1..];
      ItemsRead(rest);
      ItemRead(items[0], ItemsText(rest));
      assert rest[|rest| - 1] == items[|items| - 1];
      if !EndsInPair(items) {
        var lone := [NameValue(items[|items| - 1].name, [])];
        assert MeantBy(items[0]) + (Pairs(ItemsText(rest)) + lone) == MeantBy(items[0]) + Pairs(ItemsText(rest)) + lone;
      }
    }
  }

  lemma OneMeant(item: Item)
    ensures Meant([item]) == if item.Pair? then [item.nv] else if item.name == [] then [] else [NameValue(item.name, [])]
  {
    assert Meant([]) == [] && MeantBy(item) + [] == MeantBy(item);
  }

  /** For every form with lone names in it: it is read as what it means, if and only if no lone name ends it. */
  lemma MixedForm(items: seq<Item>)
    ensures Pairs(ItemsText(items)) == Meant(items) <==> EndsInPair(items)
  {
    hide Pairs, Meant, ItemsText;
    ItemsRead(items);
  }

  lemma NoPairs(name: Bytes)
    ensures Pairs(PercentCoding.Encode(name)) == []
  {
    hide FindFirstOf, PercentCoding.Encode, PercentCoding.Decode;
    var n := PercentCoding.Encode(name);
    EncodedApart(name);
    FindFirstAfter(n, [], {AMPERSAND, EQUALS});
    assert n + [] == n;
  }
}
