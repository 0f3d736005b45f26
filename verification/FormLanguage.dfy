/**
 What every form body means, however it was written: the fields of a body, in percent coding of any style and with
 either separator, and the content types under which it is read as one.
 */
module FormLanguage {
  import opened ByteSearch
  import opened ByteStrings
  import opened FormContent
  import opened FormPairs
  import opened MultipartBody
  import opened HttpRequestParser
  import PercentCoding

  // ---------- Content types ----------

  function Lower(c: Byte): int {
    if 'A' as int <= c <= 'Z' as int then c + 32 else c
  }

  /** The bytes begin with a lower-case text, in letters of either case. */
  predicate BeginsWith(s: Bytes, text: string) {
    |text| <= |s| && forall i | 0 <= i < |text| :: Lower(s[i]) == text[i] as int
  }

  predicate LowerText(text: string) {
    forall i | 0 <= i < |text| :: text[i] as int < 256 && !('A' <= text[i] <= 'Z')
  }

  lemma SameCase(s: Bytes, t: Bytes, text: string)
    requires Spells(t, text) && LowerText(text)
    ensures SamePrefix(s, t, |t|) <==> BeginsWith(s, text)
    ensures SamePrefix(t, s, |t|) <==> BeginsWith(s, text)
  {
    forall i | 0 <= i < |t| && i < |s|
      ensures ToUpper(s[i]) == ToUpper(t[i]) <==> Lower(s[i]) == text[i] as int
    {
      assert t[i] == text[i] as int && !('A' <= text[i] <= 'Z');
    }
  }

  lemma PairsSpelt()
    ensures Spells(URLENCODED, "application/x-www-form-urlencoded")
  {
  }

  lemma PairsLower()
    ensures LowerText("application/x-www-form-urlencoded")
  {
  }

  lemma PartsSpelt()
    ensures Spells(MULTIPART, "multipart/form-data") && LowerText("multipart/form-data")
  {
  }

  lemma HeaderSpelt()
    ensures Spells(CONTENT_TYPE, "Content-Type")
  {
  }

  /** Exactly the types that are read as pairs. */
  lemma TypeOfPairs(contentType: Bytes)
    ensures IsPairs(contentType) <==> contentType == [] || BeginsWith(contentType, "application/x-www-form-urlencoded")
  {
    hide SamePrefix, BeginsWith, Spells, LowerText;
    PairsSpelt();
    PairsLower();
    SameCase(contentType, URLENCODED, "application/x-www-form-urlencoded");
  }

  /** Exactly the types that are read as parts. */
  lemma TypeOfParts(contentType: Bytes)
    ensures IsMultipart(contentType) <==> BeginsWith(contentType, "multipart/form-data")
  {
    hide SamePrefix, BeginsWith, Spells, LowerText;
    PartsSpelt();
    SameCase(contentType, MULTIPART, "multipart/form-data");
  }

  function Decoded(s: Bytes): Bytes {
    PercentCoding.Decode(s)
  }

  // ---------- Fields ----------

  /** A field that ends with a separator: a name and a value up to an ampersand or a semicolon, or a name up to an ampersand. */
  datatype Field = Assigned(name: Bytes, value: Bytes, end: Byte) | Alone(name: Bytes)

  /** What comes behind the last separator. */
  datatype Last = Assign(name: Bytes, value: Bytes) | Remainder(name: Bytes)

  predicate ProperName(name: Bytes) {
    forall c | c in name :: c != '&' as int && c != '=' as int
  }

  predicate ProperValue(value: Bytes) {
    forall c | c in value :: c != '&' as int && c != ';' as int
  }

  predicate ProperField(f: Field) {
    match f
    case Assigned(name, value, end) => ProperName(name) && ProperValue(value) && end in {'&' as int, ';' as int}
    case Alone(name) => ProperName(name)
  }

  predicate ProperLast(l: Last) {
    match l
    case Assign(name, value) => ProperName(name) && ProperValue(value)
    case Remainder(name) => ProperName(name)
  }

  function FieldText(f: Field): (s: Bytes)
    ensures s != []
  {
    match f
    case Assigned(name, value, end) => name + ['=' as int] + (value + [end])
    case Alone(name) => name + ['&' as int]
  }

  function LastText(l: Last): Bytes {
    match l
    case Assign(name, value) => name + ['=' as int] + value
    case Remainder(name) => name
  }

  function BodyText(fields: seq<Field>, last: Last): Bytes {
    if fields == [] then LastText(last) else FieldText(fields[0]) + BodyText(fields[1..], last)
  }

  /** Nothing between two separators means nothing. */
  function FieldMeans(f: Field): seq<NameValue> {
    match f
    case Assigned(name, value, _) => [NameValue(Decoded(name), Decoded(value))]
    case Alone(name) => if name == [] then [] else [NameValue(Decoded(name), [])]
  }

  function LastMeans(l: Last): seq<NameValue> {
    match l
    case Assign(name, value) => [NameValue(Decoded(name), Decoded(value))]
    case Remainder(_) => []
  }

  function BodyMeans(fields: seq<Field>, last: Last): seq<NameValue> {
    if fields == [] then LastMeans(last) else FieldMeans(fields[0]) + BodyMeans(fields[1..], last)
  }

  // ---------- Reading fields ----------

  lemma EndBytes(c: Byte)
    ensures c in {SEMICOLON, AMPERSAND} <==> c == '&' as int || c == ';' as int
    ensures c in {AMPERSAND, EQUALS} <==> c == '&' as int || c == '=' as int
  {
  }

  /** The first mark behind bytes without one. */
  lemma FirstEnd(value: Bytes, t: Bytes)
    requires ProperValue(value) && (t == [] || t[0] == '&' as int || t[0] == ';' as int)
    ensures FindFirstOf(value + t, {SEMICOLON, AMPERSAND}, 0) == if t == [] then None else Some(|value|)
  {
    hide FindFirstOf;
    forall c | c in value
      ensures c !in {SEMICOLON, AMPERSAND}
    {
      EndBytes(c);
    }
    if t != [] { EndBytes(t[0]); }
    FindFirstAfter(value, t, {SEMICOLON, AMPERSAND});
  }

  lemma FirstMark(name: Bytes, t: Bytes)
    requires ProperName(name) && (t == [] || t[0] == '&' as int || t[0] == '=' as int)
    ensures FindFirstOf(name + t, {AMPERSAND, EQUALS}, 0) == if t == [] then None else Some(|name|)
  {
    hide FindFirstOf;
    forall c | c in name
      ensures c !in {AMPERSAND, EQUALS}
    {
      EndBytes(c);
    }
    if t != [] { EndBytes(t[0]); }
    FindFirstAfter(name, t, {AMPERSAND, EQUALS});
  }

  lemma Parts(front: Bytes, value: Bytes, t: Bytes)
    ensures var s := front + (value + t);
            s[|front|..] == value + t && s[|front|..|front| + |value|] == value && (t == [] ==> s[|front|..] == value)
  {
  }

  lemma FirstEndAt(front: Bytes, t: Bytes)
    ensures FindFirstOf(front + t, {SEMICOLON, AMPERSAND}, |front|) ==
            match FindFirstOf(t, {SEMICOLON, AMPERSAND}, 0) { case None => None case Some(k) => Some(|front| + k) }
  {
    hide FindFirstOf;
    assert (front + t)[|front|..] == t;
    FindFirstOfShift(front + t, {SEMICOLON, AMPERSAND}, |front|, 0);
  }

  lemma ValueTurnAt(name: Bytes, s: Bytes, from: nat, value: Bytes)
    requires from + |value| <= |s| && s[from..from + |value|] == value
    requires FindFirstOf(s, {SEMICOLON, AMPERSAND}, from) == if from + |value| == |s| then None else Some(from + |value|)
    ensures ValueTurn(name, s, from) ==
            Turn([NameValue(name, Decoded(value))], if from + |value| == |s| then None else Some(from + |value| + 1))
  {
    hide FindFirstOf, PercentCoding.Decode;
    assert from + |value| == |s| ==> s[from..] == value;
  }

  lemma ValuePlace(front: Bytes, value: Bytes, t: Bytes)
    requires ProperValue(value) && (t == [] || t[0] == '&' as int || t[0] == ';' as int)
    ensures var s, from := front + (value + t), |front|;
            && from + |value| <= |s| && s[from..from + |value|] == value && (t == [] <==> from + |value| == |s|)
            && FindFirstOf(s, {SEMICOLON, AMPERSAND}, from) == if t == [] then None else Some(from + |value|)
  {
    hide *;
    FirstEnd(value, t);
    FirstEndAt(front, value + t);
    Parts(front, value, t);
  }

  lemma ValueRead(name: Bytes, front: Bytes, value: Bytes, t: Bytes)
    requires ProperValue(value) && (t == [] || t[0] == '&' as int || t[0] == ';' as int)
    ensures ValueTurn(name, front + (value + t), |front|) ==
            Turn([NameValue(name, Decoded(value))], if t == [] then None else Some(|front| + |value| + 1))
  {
    hide *;
    ValuePlace(front, value, t);
    ValueTurnAt(name, front + (value + t), |front|, value);
  }

  /** A name and a value at the front of a body. */
  lemma AssignedRead(name: Bytes, value: Bytes, t: Bytes)
    requires ProperName(name) && ProperValue(value) && (t == [] || t[0] == '&' as int || t[0] == ';' as int)
    ensures TurnAt(name + ['=' as int] + (value + t), 0) ==
            Turn([NameValue(Decoded(name), Decoded(value))],
                 if t == [] then None else Some(|name| + 1 + |value| + 1))
  {
    hide FindFirstOf, ValueTurn, PercentCoding.Decode, ProperName, ProperValue;
    var rest := ['=' as int] + (value + t);
    assert name + ['=' as int] + (value + t) == name + rest;
    FirstMark(name, rest);
    Parts([], name, rest);
    assert [] + (name + rest) == name + rest;
    ValueRead(Decoded(name), name + ['=' as int], value, t);
  }

  lemma AloneRead(name: Bytes, t: Bytes)
    requires ProperName(name)
    ensures TurnAt(name + (['&' as int] + t), 0) == Turn(FieldMeans(Alone(name)), Some(|name| + 1))
  {
    hide FindFirstOf, ValueTurn, PercentCoding.Decode;
    var s := name + (['&' as int] + t);
    FirstMark(name, ['&' as int] + t);
    assert s[0..|name|] == name && s[|name|] == AMPERSAND;
  }

  lemma FieldRead(f: Field, t: Bytes)
    requires ProperField(f)
    ensures Pairs(FieldText(f) + t) == FieldMeans(f) + Pairs(t)
  {
    hide TurnAt, PercentCoding.Decode, ProperName, ProperValue;
    var s := FieldText(f) + t;
    match f
    case Assigned(name, value, end) =>
      assert s == name + ['=' as int] + (value + ([end] + t));
      AssignedRead(name, value, [end] + t);
      assert s[|name| + 1 + |value| + 1..] == t;
    case Alone(name) =>
      assert s == name + (['&' as int] + t);
      AloneRead(name, t);
      assert s[|name| + 1..] == t;
  }

  lemma LastRead(l: Last)
    requires ProperLast(l)
    ensures Pairs(LastText(l)) == LastMeans(l)
  {
    hide FindFirstOf, ValueTurn, PercentCoding.Decode;
    match l
    case Assign(name, value) =>
      AssignedRead(name, value, []);
      assert value + [] == value;
    case Remainder(name) =>
      FirstMark(name, []);
      assert name + [] == name;
  }

  /** A body is read as its fields mean. */
  lemma {:induction false} BodyRead(fields: seq<Field>, last: Last)
    requires (forall f | f in fields :: ProperField(f)) && ProperLast(last)
    ensures Pairs(BodyText(fields, last)) == BodyMeans(fields, last)
    decreases |fields|
  {
    hide Pairs, FieldText, FieldMeans, LastText, LastMeans, ProperField, ProperLast;
    if fields == [] {
      LastRead(last);
    } else {
      FieldRead(fields[0], BodyText(fields[1..], last));
      BodyRead(fields[1..], last);
    }
  }

  /** Every body is made of fields. */
  lemma {:induction false} BodySplit(s: Bytes) returns (fields: seq<Field>, last: Last)
    ensures (forall f | f in fields :: ProperField(f)) && ProperLast(last) && s == BodyText(fields, last)
    decreases |s|, 0
  {
    hide FindFirstOf;
    match FindFirstOf(s, {'&' as int, '=' as int}, 0)
    case None =>
      fields, last := [], Remainder(s);
    case Some(pos) =>
      var name := s[..pos];
      assert ProperName(name);
      if s[pos] == '&' as int {
        var f := Alone(name);
        assert s == FieldText(f) + s[pos + 1..];
        fields, last := MoreFields(f, s[pos + 1..]);
      } else {
        var rest := s[pos + 1..];
        assert s == name + ['=' as int] + rest;
        match FindFirstOf(rest, {'&' as int, ';' as int}, 0) {
          case None =>
            assert ProperValue(rest);
            fields, last := [], Assign(name, rest);
          case Some(k) =>
            var f := Assigned(name, rest[..k], rest[k]);
            assert ProperValue(rest[..k]);
            assert rest == rest[..k] + [rest[k]] + rest[k + 1..];
            assert s == FieldText(f) + rest[k + 1..];
            fields, last := MoreFields(f, rest[k + 1..]);
        }
      }
  }

  lemma {:induction false} MoreFields(f: Field, t: Bytes) returns (fields: seq<Field>, last: Last)
    requires ProperField(f)
    ensures (forall g | g in fields :: ProperField(g)) && ProperLast(last) && FieldText(f) + t == BodyText(fields, last)
    decreases |t|, 1
  {
    hide FieldText, LastText, ProperField, ProperLast;
    var others;
    others, last := BodySplit(t);
    fields := [f] + others;
    assert fields[1..] == others;
  }

  /** For every body there are fields that it is made of, and what is read is what they mean. */
  lemma FormBody(s: Bytes)
    ensures exists fields, last :: (forall f | f in fields :: ProperField(f)) && ProperLast(last) && s == BodyText(fields, last)
    ensures forall fields, last |
              (forall f | f in fields :: ProperField(f)) && ProperLast(last) && s == BodyText(fields, last) ::
              Pairs(s) == BodyMeans(fields, last)
  {
    hide BodyText, BodyMeans, Pairs, ProperField, ProperLast;
    var fields, last := BodySplit(s);
    assert (forall f | f in fields :: ProperField(f)) && ProperLast(last) && s == BodyText(fields, last);
    forall fields, last | (forall f | f in fields :: ProperField(f)) && ProperLast(last) && s == BodyText(fields, last)
      ensures Pairs(s) == BodyMeans(fields, last)
    {
      BodyRead(fields, last);
    }
  }

  /** A form is read under every type that begins like the standard one, in any case, and under none. */
  lemma FormUnderType(contentType: Bytes, s: Bytes, before: Parsed)
    requires contentType == [] || BeginsWith(contentType, "application/x-www-form-urlencoded")
    ensures ContentOf(contentType, s, before) == before.(params := before.params + Pairs(s))
  {
    hide IsPairs, BeginsWith, IsMultipart;
    TypeOfPairs(contentType);
    if s == [] {
      PairsOfNothing();
      assert before.params + [] == before.params;
    }
  }
}
