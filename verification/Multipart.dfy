/**
 Bodies in parts (section 5.1.1 of RFC 2046), as `parse_content`, `parse_multipart_content` and
 `parse_multipart_header` of `src/request_parser.cpp` take them apart.
 */
module Multipart {
  import opened ByteSearch
  import opened ByteStrings
  import PercentCoding

  const DISPOSITION: Bytes :=
    ['C' as int, 'o' as int, 'n' as int, 't' as int, 'e' as int, 'n' as int, 't' as int, '-' as int,
     'D' as int, 'i' as int, 's' as int, 'p' as int, 'o' as int, 's' as int, 'i' as int, 't' as int,
     'i' as int, 'o' as int, 'n' as int, ':' as int, ' ' as int]
  const FORM_DATA: Bytes :=
    ['f' as int, 'o' as int, 'r' as int, 'm' as int, '-' as int, 'd' as int, 'a' as int, 't' as int,
     'a' as int]
  const NAME_IS: Bytes := ['n' as int, 'a' as int, 'm' as int, 'e' as int, '=' as int, 34]
  const FILENAME_IS: Bytes :=
    ['f' as int, 'i' as int, 'l' as int, 'e' as int, 'n' as int, 'a' as int, 'm' as int, 'e' as int,
     '=' as int, 34]
  const TYPE_IS: Bytes :=
    ['C' as int, 'o' as int, 'n' as int, 't' as int, 'e' as int, 'n' as int, 't' as int, '-' as int,
     'T' as int, 'y' as int, 'p' as int, 'e' as int, ':' as int, ' ' as int]
  /** What every head begins with, up to the name. */
  const LEAD: Bytes :=
    ['C' as int, 'o' as int, 'n' as int, 't' as int, 'e' as int, 'n' as int, 't' as int, '-' as int,
     'D' as int, 'i' as int, 's' as int, 'p' as int, 'o' as int, 's' as int, 'i' as int, 't' as int,
     'i' as int, 'o' as int, 'n' as int, ':' as int, ' ' as int, 'f' as int, 'o' as int, 'r' as int,
     'm' as int, '-' as int, 'd' as int, 'a' as int, 't' as int, 'a' as int, ';' as int, ' ' as int]
  const CRLFCRLF: Bytes := [CR, LF, CR, LF]
  const DASHES: Bytes := [MINUS, MINUS]

  // ---------- One part ----------

  datatype PartHeader = PartHeader(disposition: Bytes, name: Bytes, filename: Bytes, filetype: Bytes)

  /** A part without a filename becomes a parameter, any other an upload. */
  datatype Part = Field(name: Bytes, value: Bytes) | File(name: Bytes, filename: Bytes, filetype: Bytes, value: Bytes)

  /** `parse_multipart_header`. */
  function ParseHeader(data: Bytes): PartHeader {
    PartHeader(ExtractBetween(data, DISPOSITION, [SEMICOLON]),
               ExtractBetween(data, NAME_IS, [QUOTE]),
               PercentCoding.Decode(ExtractBetween(data, FILENAME_IS, [QUOTE])),
               ExtractBetween(data, TYPE_IS, CRLFCRLF))
  }

  /** `data` without its last two bytes; the length wraps, and all is kept, when there are fewer. */
  function DropLineEnd(data: Bytes): Bytes {
    if |data| >= 2 then data[..|data| - 2] else data
  }

  /** `parse_multipart_content`; none for the exception "invalid part header". */
  function ParsePart(data: Bytes): Option<Part> {
    match Find(data, CRLFCRLF, 0)
    case None => None
    case Some(limit) =>
      OccursFits(data, CRLFCRLF, limit);
      var start := limit + |CRLFCRLF|;
      var value, head := DropLineEnd(data[start..]), ParseHeader(data[..start]);
      Some(if head.filename == [] then Field(head.name, value) else File(head.name, head.filename, head.filetype, value))
  }

  /** A head up to the name, and whatever follows it. */
  function Named(name: Bytes, rest: Bytes): Bytes {
    LEAD + NAME_IS + name + [QUOTE] + rest
  }

  /** The head of a part as a client writes it, with the filename percent-coded. */
  function Head(part: Part): Bytes {
    match part
    case Field(name, _) => Named(name, CRLFCRLF)
    case File(name, filename, filetype, _) =>
      Named(name, [SEMICOLON, SPACE] + FILENAME_IS + PercentCoding.Encode(filename) + [QUOTE] +
                  (CRLF + TYPE_IS + filetype + CRLFCRLF))
  }

  function Render(part: Part): Bytes {
    Head(part) + part.value
  }

  /** The names the code can tell from the text around them. Tokens are such names. */
  predicate NameReadable(name: Bytes) {
    forall c | c in name :: c !in {CR, QUOTE, COLON, EQUALS}
  }

  predicate HeadReadable(part: Part) {
    NameReadable(part.name) && (part.File? ==> CR !in part.filetype)
  }

  /** An upload is told from a field by its filename. */
  predicate Readable(part: Part) {
    HeadReadable(part) && (part.File? ==> part.filename != [])
  }

  // ---------- Where the texts of a head stand ----------

  /** A byte of the needle that is not met early shows where its first match is. */
  lemma FindAt(data: Bytes, needle: Bytes, from: nat, at: nat, k: nat)
    requires from <= at && OccursAt(data, needle, at) && k < |needle|
    requires forall i: nat | from <= i < at && i + k < |data| && data[i + k] == needle[k] :: !OccursAt(data, needle, i)
    ensures Find(data, needle, from) == Some(at)
  {
    forall i: nat | from <= i < at
      ensures !OccursAt(data, needle, i)
    {
      if OccursAt(data, needle, i) {
        OccursByte(data, needle, i, k);
      }
    }
  }

  lemma Pieces5(u: Bytes, a: Bytes, b: Bytes, c: Bytes, d: Bytes)
    ensures var data, i := u + a + b + c + d, |u|;
            && OccursAt(data, a, i)
            && data[i + |a|..i + |a| + |b|] == b
            && OccursAt(data, c, i + |a| + |b|)
  {
    var data, i := u + a + b + c + d, |u|;
    assert data[i..i + |a|] == a;
    assert data[i + |a| + |b|..i + |a| + |b| + |c|] == c;
  }

  /** What lies between two texts, when the first is not met before and a byte of the second is not met between. */
  lemma Between(u: Bytes, sep1: Bytes, mid: Bytes, sep2: Bytes, rest: Bytes)
    requires sep1 != [] && sep2 != []
    requires forall i: nat | i < |u| :: !OccursAt(u + sep1 + mid + sep2 + rest, sep1, i)
    requires sep2[0] !in mid
    ensures ExtractBetween(u + sep1 + mid + sep2 + rest, sep1, sep2) == mid
  {
    hide OccursAt, Find;
    var data := u + sep1 + mid + sep2 + rest;
    var start := |u| + |sep1|;
    var limit := start + |mid|;
    Pieces5(u, sep1, mid, sep2, rest);
    forall i | start <= i < limit
      ensures data[i] != sep2[0]
    {
      assert data[i] == data[start..limit][i - start];
    }
    FindAt(data, sep1, 0, |u|, 0);
    FindAt(data, sep2, start, limit, 0);
  }

  /** No match begins in `u` when some byte of the needle is in neither `u` nor the needle's bytes before it. */
  lemma NotBefore(u: Bytes, sep: Bytes, rest: Bytes, k: nat)
    requires k < |sep| && sep[k] !in u && sep[k] !in sep[..k]
    ensures forall i: nat | i < |u| :: !OccursAt(u + sep + rest, sep, i)
  {
    var data := u + sep + rest;
    forall i: nat | i < |u|
      ensures !OccursAt(data, sep, i)
    {
      assert data[i + k] == if i + k < |u| then u[i + k] else sep[..k][i + k - |u|];
      if OccursAt(data, sep, i) {
        OccursByte(data, sep, i, k);
      }
    }
  }

  /** In the fixed texts the quotes and the colons stand where one sees them. */
  lemma LeadParts()
    ensures LEAD == DISPOSITION + FORM_DATA + [SEMICOLON, SPACE]
  {
  }

  lemma LeadText()
    ensures QUOTE !in LEAD && CR !in LEAD && |LEAD| == 32 && LEAD[31] == SPACE
  {
  }

  lemma LeadColon()
    ensures |LEAD| == 32 && LEAD[7] == MINUS
    ensures forall i | 0 <= i < 32 && LEAD[i] == COLON :: i == 19
  {
  }

  lemma NameText()
    ensures |NAME_IS| == 6 && NAME_IS[5] == QUOTE != EQUALS && QUOTE !in NAME_IS[..5] && COLON !in NAME_IS && CR !in NAME_IS
  {
  }

  lemma FilenameText()
    ensures |FILENAME_IS| == 10 && FILENAME_IS[9] == QUOTE && QUOTE !in FILENAME_IS[..9]
    ensures COLON !in FILENAME_IS && CR !in FILENAME_IS
    ensures FILENAME_IS[3] != SPACE && FILENAME_IS[8] == EQUALS
  {
  }

  lemma TypeText()
    ensures |TYPE_IS| == 14 && TYPE_IS[12] == COLON && COLON !in TYPE_IS[..12] && CR !in TYPE_IS
    ensures TYPE_IS[0] != MINUS
  {
  }

  lemma DispositionText()
    ensures SEMICOLON !in FORM_DATA && DISPOSITION != [] && FORM_DATA != []
  {
  }

  /** Where the quotes stand up to the end of a name. */
  lemma NameQuotes(name: Bytes, rest: Bytes, p: nat)
    requires NameReadable(name)
    requires p < |LEAD| + 6 + |name|
    ensures (LEAD + NAME_IS + name + [QUOTE] + rest)[p] == QUOTE ==> p == |LEAD| + 5
  {
    hide LEAD, NAME_IS;
    LeadText();
    NameText();
    var data := LEAD + NAME_IS + name + [QUOTE] + rest;
    assert p < |LEAD| ==> data[p] == LEAD[p];
    assert |LEAD| <= p < |LEAD| + 5 ==> data[p] == NAME_IS[..5][p - |LEAD|];
    assert p >= |LEAD| + 6 ==> data[p] == name[p - |LEAD| - 6] && name[p - |LEAD| - 6] in name;
  }

  /** The bytes that tell the quotes around a name from the quote of `filename=`. */
  lemma BeforeQuotes(name: Bytes, rest: Bytes)
    requires NameReadable(name)
    ensures var data := LEAD + NAME_IS + name + [QUOTE] + rest;
            data[|LEAD| - 1] == SPACE && data[|LEAD| + 5 + |name|] != EQUALS
  {
    hide LEAD, NAME_IS;
    LeadText();
    NameText();
    var data := LEAD + NAME_IS + name + [QUOTE] + rest;
    if name != [] {
      assert data[|LEAD| + 5 + |name|] == name[|name| - 1] && name[|name| - 1] in name;
    } else {
      assert data[|LEAD| + 5 + |name|] == NAME_IS[5];
    }
  }

  /** The quotes around a name do not end a match of `filename=`. */
  lemma NameHidesNothing(name: Bytes, rest: Bytes, i: nat)
    requires NameReadable(name)
    requires OccursAt(LEAD + NAME_IS + name + [QUOTE] + rest, FILENAME_IS, i)
    ensures i + 9 >= |LEAD| + |NAME_IS| + |name| + 1
  {
    hide *;
    NameText();
    FilenameText();
    var data := LEAD + NAME_IS + name + [QUOTE] + rest;
    BeforeQuotes(name, rest);
    OccursByte(data, FILENAME_IS, i, 9);
    OccursByte(data, FILENAME_IS, i, 3);
    OccursByte(data, FILENAME_IS, i, 8);
    if i + 9 < |LEAD| + 6 + |name| {
      NameQuotes(name, rest, i + 9);
    }
  }

  /** The colon before a name does not belong to a match of the type's text. */
  lemma LeadHidesNothing(rest: Bytes, i: nat)
    requires OccursAt(LEAD + rest, TYPE_IS, i)
    ensures i + 12 >= |LEAD|
  {
    hide *;
    LeadColon();
    TypeText();
    OccursByte(LEAD + rest, TYPE_IS, i, 12);
    OccursByte(LEAD + rest, TYPE_IS, i, 0);
  }

  // ---------- What the head of a part says ----------

  lemma DispositionOf(name: Bytes, rest: Bytes)
    ensures ExtractBetween(Named(name, rest), DISPOSITION, [SEMICOLON]) == FORM_DATA
  {
    hide *;
    DispositionText();
    LeadParts();
    var t := [SPACE] + NAME_IS + name + [QUOTE] + rest;
    Between([], DISPOSITION, FORM_DATA, [SEMICOLON], t);
    NamedIs(name, rest);
    assert [] + DISPOSITION + FORM_DATA + [SEMICOLON] + t == LEAD + NAME_IS + name + [QUOTE] + rest;
  }

  lemma NamedIs(name: Bytes, rest: Bytes)
    ensures Named(name, rest) == LEAD + NAME_IS + name + [QUOTE] + rest
  {
  }

  lemma NameOf(name: Bytes, rest: Bytes)
    requires NameReadable(name)
    ensures ExtractBetween(Named(name, rest), NAME_IS, [QUOTE]) == name
  {
    hide ExtractBetween, OccursAt, LEAD, NAME_IS;
    LeadText();
    NameText();
    NotBefore(LEAD, NAME_IS, name + [QUOTE] + rest, 5);
    assert LEAD + NAME_IS + (name + [QUOTE] + rest) == LEAD + NAME_IS + name + [QUOTE] + rest;
    Between(LEAD, NAME_IS, name, [QUOTE], rest);
  }

  /** A head without a filename. */
  lemma NoFilename(name: Bytes)
    requires NameReadable(name)
    ensures ExtractBetween(Named(name, CRLFCRLF), FILENAME_IS, [QUOTE]) == []
  {
    hide OccursAt, LEAD, NAME_IS;
    NameText();
    FilenameText();
    var data := Named(name, CRLFCRLF);
    var s := |LEAD| + 6 + |name| + 1;
    assert forall i | s <= i < |data| :: data[i] == CRLFCRLF[i - s];
    match Find(data, FILENAME_IS, 0)
    case None =>
    case Some(i) =>
      NameHidesNothing(name, CRLFCRLF, i);
      OccursByte(data, FILENAME_IS, i, 9);
      assert false;
  }

  lemma FilenameOf(name: Bytes, encoded: Bytes, rest: Bytes)
    requires NameReadable(name) && QUOTE !in encoded
    ensures ExtractBetween(Named(name, [SEMICOLON, SPACE] + FILENAME_IS + encoded + [QUOTE] + rest), FILENAME_IS, [QUOTE])
         == encoded
  {
    hide ExtractBetween, OccursAt, LEAD, NAME_IS, FILENAME_IS;
    NameText();
    FilenameText();
    var t := [SEMICOLON, SPACE] + FILENAME_IS + encoded + [QUOTE] + rest;
    var data, s := Named(name, t), |LEAD| + 6 + |name| + 1;
    var u := LEAD + NAME_IS + name + [QUOTE, SEMICOLON, SPACE];
    assert data == u + FILENAME_IS + encoded + [QUOTE] + rest;
    forall i: nat | i < |u|
      ensures !OccursAt(data, FILENAME_IS, i)
    {
      assert s <= i + 9 < |u| ==> data[i + 9] == [SEMICOLON, SPACE][i + 9 - s];
      assert |u| <= i + 9 ==> data[i + 9] == FILENAME_IS[..9][i + 9 - |u|];
      if OccursAt(data, FILENAME_IS, i) {
        NameHidesNothing(name, t, i);
        OccursByte(data, FILENAME_IS, i, 9);
      }
    }
    Between(u, FILENAME_IS, encoded, [QUOTE], rest);
  }

  /** A head without a type. */
  lemma NoType(name: Bytes)
    requires NameReadable(name)
    ensures ExtractBetween(Named(name, CRLFCRLF), TYPE_IS, CRLFCRLF) == []
  {
    hide OccursAt, LEAD, NAME_IS, TYPE_IS;
    NameText();
    TypeText();
    var t := NAME_IS + name + [QUOTE] + CRLFCRLF;
    var data := Named(name, CRLFCRLF);
    assert data == LEAD + t;
    assert COLON !in t;
    assert forall i | |LEAD| <= i < |data| :: data[i] == t[i - |LEAD|];
    match Find(data, TYPE_IS, 0)
    case None =>
    case Some(i) =>
      LeadHidesNothing(t, i);
      OccursByte(data, TYPE_IS, i, 12);
      assert false;
  }

  lemma TypeOf(t: Bytes, filetype: Bytes, rest: Bytes)
    requires COLON !in t && CR !in filetype
    ensures ExtractBetween(LEAD + t + TYPE_IS + filetype + CRLFCRLF + rest, TYPE_IS, CRLFCRLF) == filetype
  {
    hide ExtractBetween, OccursAt, LEAD, TYPE_IS;
    TypeText();
    var u := LEAD + t;
    var data := u + TYPE_IS + filetype + CRLFCRLF + rest;
    var v := t + TYPE_IS + filetype + CRLFCRLF + rest;
    assert data == LEAD + v;
    forall i: nat | i < |u|
      ensures !OccursAt(data, TYPE_IS, i)
    {
      assert |LEAD| <= i + 12 < |u| ==> data[i + 12] == t[i + 12 - |LEAD|];
      assert |u| <= i + 12 ==> data[i + 12] == TYPE_IS[..12][i + 12 - |u|];
      if OccursAt(data, TYPE_IS, i) {
        LeadHidesNothing(v, i);
        OccursByte(data, TYPE_IS, i, 12);
      }
    }
    Between(u, TYPE_IS, filetype, CRLFCRLF, rest);
  }

  lemma HeaderOfField(name: Bytes)
    requires NameReadable(name)
    ensures ParseHeader(Named(name, CRLFCRLF)) == PartHeader(FORM_DATA, name, [], [])
  {
    hide ExtractBetween, Named, NameReadable;
    DispositionOf(name, CRLFCRLF);
    NameOf(name, CRLFCRLF);
    NoFilename(name);
    NoType(name);
    hide DISPOSITION, FORM_DATA, NAME_IS, FILENAME_IS, TYPE_IS;
  }

  lemma HeaderOfFile(part: Part)
    requires part.File? && HeadReadable(part)
    ensures ParseHeader(Head(part)) == PartHeader(FORM_DATA, part.name, part.filename, part.filetype)
  {
    hide *;
    ReadableFile(part);
    var name, encoded := part.name, PercentCoding.Encode(part.filename);
    EncodedText(part.filename);
    PercentCoding.DecodeUndoesEncode(part.filename);
    var t := CRLF + TYPE_IS + part.filetype + CRLFCRLF;
    var rest := [SEMICOLON, SPACE] + FILENAME_IS + encoded + [QUOTE] + t;
    HeadOfFile(part);
    DispositionOf(name, rest);
    NameOf(name, rest);
    FilenameOf(name, encoded, t);
    var u := NAME_IS + name + [QUOTE, SEMICOLON, SPACE] + FILENAME_IS + encoded + [QUOTE] + CRLF;
    NoColon(name, encoded, u);
    TypeOf(u, part.filetype, []);
    NamedIs(name, rest);
    assert LEAD + NAME_IS + name + [QUOTE] + rest == LEAD + u + TYPE_IS + part.filetype + CRLFCRLF + [];
    ParseHeaderIs(Head(part));
  }

  lemma ParseHeaderIs(data: Bytes)
    ensures ParseHeader(data) ==
            PartHeader(ExtractBetween(data, DISPOSITION, [SEMICOLON]), ExtractBetween(data, NAME_IS, [QUOTE]),
                       PercentCoding.Decode(ExtractBetween(data, FILENAME_IS, [QUOTE])), ExtractBetween(data, TYPE_IS, CRLFCRLF))
  {
  }

  lemma ReadableFile(part: Part)
    requires part.File? && HeadReadable(part)
    ensures NameReadable(part.name) && CR !in part.filetype
  {
  }

  lemma HeadOfFile(part: Part)
    requires part.File?
    ensures Head(part) == Named(part.name, [SEMICOLON, SPACE] + FILENAME_IS + PercentCoding.Encode(part.filename) + [QUOTE] +
                                           (CRLF + TYPE_IS + part.filetype + CRLFCRLF))
  {
  }

  lemma EncodedText(s: Bytes)
    ensures QUOTE !in PercentCoding.Encode(s) && COLON !in PercentCoding.Encode(s) && CR !in PercentCoding.Encode(s)
  {
    PercentCoding.EncodedBytes(s);
    PercentCoding.Marks(QUOTE);
    PercentCoding.Marks(COLON);
    PercentCoding.Marks(CR);
    hide PercentCoding.Encode, PercentCoding.Unreserved;
  }

  lemma NoColon(name: Bytes, encoded: Bytes, u: Bytes)
    requires NameReadable(name) && COLON !in encoded
    requires u == NAME_IS + name + [QUOTE, SEMICOLON, SPACE] + FILENAME_IS + encoded + [QUOTE] + CRLF
    ensures COLON !in u
  {
    NameText();
    FilenameText();
    hide NAME_IS, FILENAME_IS;
  }

  /** The first blank line of a part ends its head. */
  lemma HeadLimit(part: Part, t: Bytes)
    requires HeadReadable(part)
    ensures |Head(part)| >= 4 && Find(Head(part) + t, CRLFCRLF, 0) == Some(|Head(part)| - 4)
  {
    hide OccursAt, LEAD, NAME_IS, FILENAME_IS, TYPE_IS, PercentCoding.Encode;
    LeadText();
    NameText();
    match part
    case Field(name, _) =>
      var w := LEAD + NAME_IS + name + [QUOTE];
      assert CR !in w;
      OneLine(w, t);
      assert Head(part) + t == w + CRLFCRLF + t;
    case File(name, filename, filetype, _) =>
      FilenameText();
      TypeText();
      EncodedText(filename);
      var encoded := PercentCoding.Encode(filename);
      var w := LEAD + NAME_IS + name + [QUOTE] + [SEMICOLON, SPACE] + FILENAME_IS + encoded + [QUOTE];
      var v := TYPE_IS + filetype;
      assert CR !in w && CR !in v;
      TwoLines(w, v, t);
      assert Head(part) + t == w + CRLF + v + CRLFCRLF + t;
  }

  lemma OneLine(w: Bytes, t: Bytes)
    requires CR !in w
    ensures Find(w + CRLFCRLF + t, CRLFCRLF, 0) == Some(|w|)
  {
    var data := w + CRLFCRLF + t;
    assert data[|w|..|w| + 4] == CRLFCRLF;
    assert forall i | 0 <= i < |w| :: data[i] == w[i];
    FindAt(data, CRLFCRLF, 0, |w|, 0);
  }

  lemma TwoLines(w: Bytes, v: Bytes, t: Bytes)
    requires CR !in w && CR !in v && v != []
    ensures Find(w + CRLF + v + CRLFCRLF + t, CRLFCRLF, 0) == Some(|w| + 2 + |v|)
  {
    var data := w + CRLF + v + CRLFCRLF + t;
    var at := |w| + 2 + |v|;
    assert data[at..at + 4] == CRLFCRLF;
    assert forall i | 0 <= i < |w| :: data[i] == w[i];
    assert data[|w| + 1] == LF;
    assert forall i | |w| + 2 <= i < at :: data[i] == v[i - |w| - 2];
    forall i: nat | i < at && data[i] == CR
      ensures !OccursAt(data, CRLFCRLF, i)
    {
      assert i == |w|;
      assert data[i + 2] == v[0] && v[0] in v;
      if OccursAt(data, CRLFCRLF, i) {
        OccursByte(data, CRLFCRLF, i, 2);
      }
    }
    FindAt(data, CRLFCRLF, 0, at, 0);
  }

  /** A rendered part is read, whatever the two bytes behind it; an upload without a filename becomes a field. */
  lemma PartRead(part: Part, two: Bytes)
    requires HeadReadable(part) && |two| == 2
    ensures ParsePart(Render(part) + two) ==
            Some(if part.File? && part.filename == [] then Field(part.name, part.value) else part)
  {
    hide Find, Head, ParseHeader, HeadReadable;
    var head := Head(part);
    var data := Render(part) + two;
    HeadLimit(part, part.value + two);
    assert data == head + (part.value + two);
    assert data[|head|..] == part.value + two && data[..|head|] == head;
    assert DropLineEnd(part.value + two) == part.value;
    match part
    case Field(name, _) =>
      ReadableField(part);
      HeaderOfField(name);
    case File(_, _, _, _) => HeaderOfFile(part);
  }

  /** Reading a part undoes rendering it, whatever the two bytes behind it, if and only if an upload has a filename. */
  lemma PartRoundTrip(part: Part, two: Bytes)
    requires HeadReadable(part) && |two| == 2
    ensures ParsePart(Render(part) + two) == Some(part) <==> Readable(part)
  {
    hide ParsePart, Render;
    PartRead(part, two);
  }

  lemma ReadableHead(part: Part)
    ensures Readable(part) ==> HeadReadable(part)
  {
  }

  /** A part is refused if and only if its head has no end. */
  lemma PartRefused(data: Bytes)
    ensures ParsePart(data) == None <==> forall j: nat :: !OccursAt(data, CRLFCRLF, j)
  {
    hide ParseHeader, DropLineEnd, OccursAt;
  }

  lemma ReadableField(part: Part)
    requires part.Field? && HeadReadable(part)
    ensures NameReadable(part.name) && Head(part) == Named(part.name, CRLFCRLF)
  {
  }
}
