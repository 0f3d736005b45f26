/** `parse_content` of `src/request_parser.cpp`: the body of a request becomes parameters and uploads. */
module FormContent {
  import opened ByteSearch
  import opened ByteStrings
  import opened FormPairs
  import opened HttpRequestParser
  import opened Multipart
  import opened MultipartBody
  import PercentCoding

  const CONTENT_TYPE: Bytes :=
    ['C' as int, 'o' as int, 'n' as int, 't' as int, 'e' as int, 'n' as int, 't' as int, '-' as int,
     'T' as int, 'y' as int, 'p' as int, 'e' as int]
  const URLENCODED: Bytes :=
    ['a' as int, 'p' as int, 'p' as int, 'l' as int, 'i' as int, 'c' as int, 'a' as int, 't' as int,
     'i' as int, 'o' as int, 'n' as int, '/' as int, 'x' as int, '-' as int, 'w' as int, 'w' as int,
     'w' as int, '-' as int, 'f' as int, 'o' as int, 'r' as int, 'm' as int, '-' as int, 'u' as int,
     'r' as int, 'l' as int, 'e' as int, 'n' as int, 'c' as int, 'o' as int, 'd' as int, 'e' as int,
     'd' as int]
  const MULTIPART: Bytes :=
    ['m' as int, 'u' as int, 'l' as int, 't' as int, 'i' as int, 'p' as int, 'a' as int, 'r' as int,
     't' as int, '/' as int, 'f' as int, 'o' as int, 'r' as int, 'm' as int, '-' as int, 'd' as int,
     'a' as int, 't' as int, 'a' as int]
  const BOUNDARY_IS: Bytes :=
    ['b' as int, 'o' as int, 'u' as int, 'n' as int, 'd' as int, 'a' as int, 'r' as int, 'y' as int,
     '=' as int]

  /** The uploads of a request. */
  class Uploads {
    var items: seq<Upload>

    constructor ()
      ensures items == []
    {
      items := [];
    }
  }

  // ---------- What a body means ----------

  /** The text behind `boundary=`, up to a semicolon; without it, from where `npos` plus nine wraps to. */
  function BoundaryOf(contentType: Bytes): Bytes
    requires |contentType| >= |MULTIPART|
  {
    var start := match Find(contentType, BOUNDARY_IS, 0)
      case Some(i) => (OccursFits(contentType, BOUNDARY_IS, i); i + |BOUNDARY_IS|)
      case None => |BOUNDARY_IS| - 1;
    var rest := contentType[start..];
    match Find(rest, [SEMICOLON], 0)
    case Some(k) => OccursFits(rest, [SEMICOLON], k); rest[..k]
    case None => rest
  }

  predicate IsPairs(contentType: Bytes) {
    contentType == [] || SamePrefix(contentType, URLENCODED, |URLENCODED|)
  }

  predicate IsMultipart(contentType: Bytes) {
    SamePrefix(MULTIPART, contentType, |MULTIPART|)
  }

  /** The parameters and uploads after a body of the given type. */
  function ContentOf(contentType: Bytes, content: Bytes, before: Parsed): Parsed {
    if content == [] then before
    else if IsPairs(contentType) then before.(params := before.params + Pairs(content))
    else if IsMultipart(contentType) then Collect(BodyPieces(content, BoundaryOf(contentType)), before)
    else before
  }

  // ---------- Reading undoes writing ----------

  /** A form is read as its pairs, in order. */
  lemma FormRoundTrip(contentType: Bytes, nvs: seq<NameValue>, before: Parsed)
    requires IsPairs(contentType)
    ensures ContentOf(contentType, Form(nvs), before) == before.(params := before.params + nvs)
  {
    hide SamePrefix;
    PairsOfForm(nvs);
    FormEmpty(nvs);
    assert before.params + [] == before.params;
  }

  lemma FormEmpty(nvs: seq<NameValue>)
    ensures Form(nvs) == [] <==> nvs == []
  {
  }

  /** The type a client sends with a body in parts; other attributes may follow. */
  function MultipartType(boundary: Bytes, tail: Bytes): Bytes {
    MULTIPART + [SEMICOLON, SPACE] + BOUNDARY_IS + boundary + tail
  }

  lemma TypeTexts()
    ensures |MULTIPART| == 19 && MULTIPART[0] == 'm' as int && EQUALS !in MULTIPART
    ensures |URLENCODED| > 0 && ToUpper(URLENCODED[0]) != ToUpper('m' as int)
    ensures |BOUNDARY_IS| == 9 && BOUNDARY_IS[8] == EQUALS && EQUALS !in BOUNDARY_IS[..8]
  {
  }

  lemma BoundaryFound(boundary: Bytes, tail: Bytes)
    requires SEMICOLON !in boundary && (tail == [] || tail[0] == SEMICOLON)
    ensures |MultipartType(boundary, tail)| >= |MULTIPART|
    ensures BoundaryOf(MultipartType(boundary, tail)) == boundary
  {
    hide MULTIPART, BOUNDARY_IS, URLENCODED, ToUpper, OccursAt;
    TypeTexts();
    var u := MULTIPART + [SEMICOLON, SPACE];
    var rest := boundary + tail;
    var t := MultipartType(boundary, tail);
    assert t == u + BOUNDARY_IS + rest;
    NotBefore(u, BOUNDARY_IS, rest, 8);
    assert OccursAt(t, BOUNDARY_IS, |u|) by {
      Pieces5(u, BOUNDARY_IS, boundary, tail, []);
      assert u + BOUNDARY_IS + boundary + tail + [] == t;
    }
    FindAt(t, BOUNDARY_IS, 0, |u|, 8);
    assert t[|u| + |BOUNDARY_IS|..] == rest;
    CutAtSemicolon(boundary, tail);
  }

  lemma CutAtSemicolon(boundary: Bytes, tail: Bytes)
    requires SEMICOLON !in boundary && (tail == [] || tail[0] == SEMICOLON)
    ensures var rest := boundary + tail;
            match Find(rest, [SEMICOLON], 0) case Some(k) => k <= |rest| && rest[..k] == boundary case None => rest == boundary
  {
    var rest := boundary + tail;
    forall i: nat
      ensures OccursAt(rest, [SEMICOLON], i) <==> i < |rest| && rest[i] == SEMICOLON
    {
      assert i < |rest| ==> rest[i..i + 1] == [rest[i]];
    }
    assert forall i | 0 <= i < |boundary| :: rest[i] == boundary[i];
    hide OccursAt;
    if tail != [] {
      assert rest[|boundary|] == SEMICOLON;
      assert OccursAt(rest, [SEMICOLON], |boundary|);
    } else {
      assert rest == boundary;
    }
  }

  /** A body in parts is read as its parts, in order; only a boundary of dashes adds a line end to the last value. */
  lemma MultipartContentRoundTrip(boundary: Bytes, tail: Bytes, parts: seq<Part>, before: Parsed)
    requires SEMICOLON !in boundary && (tail == [] || tail[0] == SEMICOLON)
    requires Separates(boundary, parts) && forall part | part in parts :: Readable(part)
    ensures ContentOf(MultipartType(boundary, tail), Body(boundary, parts), before)
         == CollectParts(Received(boundary, parts), before)
  {
    hide BoundaryOf, BodyPieces, Collect, CollectParts, Received, Separates, Readable;
    BoundaryFound(boundary, tail);
    MultipartRoundTrip(boundary, parts, before);
    BodyNotEmpty(boundary, parts);
    IsOfParts(boundary, tail);
    hide IsPairs, IsMultipart, MultipartType, Body;
  }

  /**
   The fields and uploads that were sent, each in order, are what the body adds, if and only if there are none or
   the boundary has a byte that is no dash.
   */
  lemma MultipartAsSent(boundary: Bytes, tail: Bytes, parts: seq<Part>, before: Parsed)
    requires SEMICOLON !in boundary && (tail == [] || tail[0] == SEMICOLON)
    requires Separates(boundary, parts) && forall part | part in parts :: Readable(part)
    ensures ContentOf(MultipartType(boundary, tail), Body(boundary, parts), before)
         == before.(params := before.params + Fields(parts), uploads := before.uploads + Files(parts))
        <==> parts == [] || !AllDashes(boundary)
  {
    hide ContentOf, BodyPieces, Collect, CollectParts, Received, Separates, Readable, Body, MultipartType, AllDashes, Fields, Files;
    MultipartContentRoundTrip(boundary, tail, parts, before);
    MultipartRoundTrip(boundary, parts, before);
    ReceivedAsSent(boundary, parts, before);
  }

  lemma BodyNotEmpty(boundary: Bytes, parts: seq<Part>)
    ensures Body(boundary, parts) != []
  {
    hide Render;
  }

  lemma IsOfParts(boundary: Bytes, tail: Bytes)
    ensures IsMultipart(MultipartType(boundary, tail)) && !IsPairs(MultipartType(boundary, tail))
  {
    hide MULTIPART, BOUNDARY_IS, URLENCODED;
    TypeTexts();
    var t := MultipartType(boundary, tail);
    assert forall i | 0 <= i < |MULTIPART| :: t[i] == MULTIPART[i];
    hide ToUpper;
  }

  // ---------- The loop over pairs ----------

  /** A turn of the loop does not depend on what it has left behind. */
  lemma ValueTurnShift(name: Bytes, content: Bytes, from: nat, k: nat)
    requires from + k <= |content|
    ensures ValueTurn(name, content, from + k) == Moved(ValueTurn(name, content[from..], k), from)
  {
    hide FindFirstOf, PercentCoding.Decode;
    var s := content[from..];
    FindFirstOfShift(content, {SEMICOLON, AMPERSAND}, from, k);
    assert s[k..] == content[from + k..];
    match FindFirstOf(s, {SEMICOLON, AMPERSAND}, k)
    case None =>
    case Some(m) => assert s[k..m] == content[from + k..from + m];
  }

  function Moved(t: Turn, places: nat): Turn {
    Turn(t.added, match t.next case None => None case Some(n) => Some(places + n))
  }

  lemma TurnShift(content: Bytes, from: nat)
    requires from <= |content|
    ensures TurnAt(content, from) == Moved(TurnAt(content[from..], 0), from)
  {
    hide FindFirstOf, ValueTurn, PercentCoding.Decode;
    var s := content[from..];
    FindFirstOfShift(content, {AMPERSAND, EQUALS}, from, 0);
    match FindFirstOf(s, {AMPERSAND, EQUALS}, 0)
    case None =>
    case Some(k) =>
      ValueTurnShift(PercentCoding.Decode(s[..k]), content, from, k + 1);
      assert s[0..k] == content[from..from + k] == s[..k];
  }

  lemma PairsAt(content: Bytes, from: nat)
    requires from <= |content|
    ensures var t := TurnAt(content, from);
            Pairs(content[from..]) == t.added + if t.next.Some? then Pairs(content[t.next.value..]) else []
  {
    hide TurnAt;
    TurnShift(content, from);
    var u := TurnAt(content[from..], 0);
    if u.next.Some? {
      assert content[from..][u.next.value..] == content[from + u.next.value..];
    }
  }

  lemma Shift(a: seq<NameValue>, b: seq<NameValue>, c: seq<NameValue>)
    ensures a + (b + c) == (a + b) + c
  {
  }

  /** The branch for percent-coded pairs; every turn of the loop moves on, so it ends on every body. */
  method ParsePairs(req: Request)
    modifies req`params
    ensures req.params == old(req.params) + Pairs(req.content)
  {
    hide Pairs, FindFirstOf, PercentCoding.Decode;
    var content := req.content;
    var from := 0;
    assert content[0..] == content;
    while true
      invariant 0 <= from <= |content|
      invariant req.params + Pairs(content[from..]) == old(req.params) + Pairs(content)
      decreases |content| - from
    {
      PairsAt(content, from);
      var found := FindFirstOf(content, {AMPERSAND, EQUALS}, from);
      if found == None {
        break;
      }
      var pos := found.value;
      if content[pos] == AMPERSAND {
        var next := SkipAmpersands(content, from);
        if next >= pos {
          from := pos + 1;
          continue;
        }
        Shift(req.params, [NameValue(PercentCoding.Decode(content[from..pos]), [])], Pairs(content[pos + 1..]));
        var name := PercentCoding.PercentDecode(content[next..pos]);
        req.params := req.params + [NameValue(name, [])];
        from := pos + 1;
        continue;
      }
      var name := PercentCoding.PercentDecode(content[from..pos]);
      var end := FindFirstOf(content, {SEMICOLON, AMPERSAND}, pos + 1);
      var value := PercentCoding.PercentDecode(if end.Some? then content[pos + 1..end.value] else content[pos + 1..]);
      if end == None {
        req.params := req.params + [NameValue(name, value)];
        return;
      }
      Shift(req.params, [NameValue(name, value)], Pairs(content[end.value + 1..]));
      req.params := req.params + [NameValue(name, value)];
      from := end.value + 1;
    }
  }

  /** Ampersands at the start are skipped. */
  method SkipAmpersands(content: Bytes, from: nat) returns (next: nat)
    requires from <= |content|
    ensures from <= next <= |content| && (next == from <==> from == |content| || content[from] != AMPERSAND)
  {
    next := from;
    while At(content, next) == AMPERSAND
      invariant from <= next <= |content|
      invariant next > from ==> content[from] == AMPERSAND
      decreases |content| - next
    {
      next := next + 1;
    }
  }

  // ---------- The loop over parts ----------

  /** `parse_multipart_content`; false for the exception "invalid part header". */
  method ParseMultipartContent(req: Request, files: Uploads, data: Bytes) returns (ok: bool)
    modifies req`params, files
    ensures ok == ParsePart(data).Some?
    ensures !ok ==> req.params == old(req.params) && files.items == old(files.items)
    ensures ok ==> (Parsed(req.params, files.items, true)
                    == AddPart(ParsePart(data).value, Parsed(old(req.params), old(files.items), true)))
  {
    hide ParseHeader, Find, OccursAt;
    var limit := Find(data, CRLFCRLF, 0);
    if limit == None {
      return false;
    }
    OccursFits(data, CRLFCRLF, limit.value);
    var start := limit.value + |CRLFCRLF|;
    var value := DropLineEnd(data[start..]);
    var head := ParseHeader(data[..start]);
    if head.filename == [] {
      req.params := req.params + [NameValue(head.name, value)];
    } else {
      files.items := files.items + [Upload(head.name, head.filename, head.filetype, value)];
    }
    return true;
  }

  lemma FindShift(s: Bytes, sep: Bytes, from: nat)
    requires from <= |s|
    ensures Find(s, sep, from) == match Find(s[from..], sep, 0) case None => None case Some(i) => Some(from + i)
  {
    hide OccursAt;
    forall i: nat
      ensures OccursAt(s[from..], sep, i) <==> OccursAt(s, sep, from + i)
    {
      OccursShift(s, sep, from, i);
    }
    var a, b := Find(s, sep, from), Find(s[from..], sep, 0);
    if a.Some? {
      assert OccursAt(s[from..], sep, a.value - from);
    }
    if b.Some? {
      assert OccursAt(s, sep, from + b.value);
    }
  }

  /** The pieces from a place that may lie behind the end. */
  function PiecesFrom(content: Bytes, from: nat, sep1: Bytes, sep2: Bytes): seq<Bytes>
    requires sep1 != []
  {
    if from > |content| then [] else Pieces(content[from..], sep1, sep2)
  }

  lemma FoundFits(content: Bytes, sep: Bytes, from: nat, pos: nat)
    requires sep != [] && Find(content, sep, from) == Some(pos)
    ensures from <= pos && pos + |sep| <= |content| && Find(content[from..], sep, 0) == Some(pos - from)
    ensures content[from..][..pos - from] == content[from..pos]
    ensures content[from..][pos - from + |sep|..] == content[pos + |sep|..]
  {
    OccursFits(content, sep, pos);
    hide Find, OccursAt;
    FindShift(content, sep, from);
  }

  lemma NextPiece(content: Bytes, from: nat, sep1: Bytes, sep2: Bytes, pos: nat)
    requires sep1 != [] && Find(content, sep1, from) == Some(pos)
    ensures from <= pos && pos + |sep1| <= |content|
    ensures PiecesFrom(content, from, sep1, sep2) == [content[from..pos]] + PiecesFrom(content, pos + |sep1|, sep1, sep2)
  {
    hide Find, Pieces;
    FoundFits(content, sep1, from, pos);
    PiecesStep(content[from..], sep1, sep2, pos - from);
  }

  lemma LastPiece(content: Bytes, from: nat, sep1: Bytes, sep2: Bytes, pos: nat)
    requires sep1 != [] && sep2 != [] && Find(content, sep1, from) == None && Find(content, sep2, from) == Some(pos)
    ensures from <= pos <= |content|
    ensures PiecesFrom(content, from, sep1, sep2) == [content[from..pos]]
  {
    hide Find, Pieces;
    FoundFits(content, sep2, from, pos);
    FindShift(content, sep1, from);
    PiecesEnd(content[from..], sep1, sep2);
  }

  lemma NoPiece(content: Bytes, from: nat, sep1: Bytes, sep2: Bytes)
    requires sep1 != [] && Find(content, sep1, from) == None && Find(content, sep2, from) == None
    ensures PiecesFrom(content, from, sep1, sep2) == []
  {
    hide Find, Pieces;
    if from <= |content| {
      FindShift(content, sep1, from);
      FindShift(content, sep2, from);
      PiecesEnd(content[from..], sep1, sep2);
    }
  }

  lemma CollectStep(piece: Bytes, rest: seq<Bytes>, before: Parsed)
    ensures Collect([piece] + rest, before) == match ParsePart(piece)
                                               case None => before.(ok := false)
                                               case Some(part) => Collect(rest, AddPart(part, before))
  {
    assert ([piece] + rest)[1..] == rest;
  }

  /** The branch for bodies in parts. */
  method ParseParts(req: Request, files: Uploads, boundary: Bytes) returns (ok: bool)
    modifies req`params, files
    ensures Parsed(req.params, files.items, ok)
         == Collect(BodyPieces(req.content, boundary), Parsed(old(req.params), old(files.items), true))
  {
    hide Find, Pieces, PiecesFrom, ParsePart, AddPart, Collect;
    var content := req.content;
    var sep1 := [MINUS, MINUS] + (boundary + CRLF);
    var sep2 := [MINUS, MINUS] + (boundary + [MINUS, MINUS, CR, LF]);
    assert sep1 == Separator(boundary) && sep2 == Final(boundary);
    var start := Find(content, sep1, 0);
    var from := match start case Some(i) => i + |sep1| case None => |sep1| - 1;
    ghost var before := Parsed(req.params, files.items, true);
    BodyPiecesFrom(content, boundary);
    while true
      invariant from <= |content| + |sep1|
      invariant Collect(BodyPieces(content, boundary), before)
             == Collect(PiecesFrom(content, from, sep1, sep2), Parsed(req.params, files.items, true))
      decreases |content| + |sep1| - from
    {
      var pos := Find(content, sep1, from);
      if pos == None {
        break;
      }
      NextPiece(content, from, sep1, sep2, pos.value);
      CollectStep(content[from..pos.value], PiecesFrom(content, pos.value + |sep1|, sep1, sep2),
                  Parsed(req.params, files.items, true));
      ok := ParseMultipartContent(req, files, content[from..pos.value]);
      if !ok {
        return;
      }
      from := pos.value + |sep1|;
    }
    var pos := Find(content, sep2, from);
    ok := true;
    CollectNothing(Parsed(req.params, files.items, true));
    if pos == None {
      NoPiece(content, from, sep1, sep2);
    } else {
      LastPiece(content, from, sep1, sep2, pos.value);
      CollectStep(content[from..pos.value], [], Parsed(req.params, files.items, true));
      assert [content[from..pos.value]] + [] == [content[from..pos.value]];
      ok := ParseMultipartContent(req, files, content[from..pos.value]);
      CollectNothing(Parsed(req.params, files.items, true));
    }
  }

  lemma CollectNothing(before: Parsed)
    ensures Collect([], before) == before
  {
  }

  lemma BodyPiecesFrom(content: Bytes, boundary: Bytes)
    ensures var sep1, sep2 := Separator(boundary), Final(boundary);
            sep1 != [] && BodyPieces(content, boundary)
            == PiecesFrom(content, match Find(content, sep1, 0) case Some(i) => i + |sep1| case None => |sep1| - 1, sep1, sep2)
  {
    hide Find, OccursAt, Pieces;
    var sep1 := Separator(boundary);
    if Find(content, sep1, 0).Some? {
      OccursFits(content, sep1, Find(content, sep1, 0).value);
    }
  }

  /** `parse_content`; false when a part has no end of its head. */
  method ParseContent(req: Request, files: Uploads) returns (ok: bool)
    modifies req, files
    ensures req.Value() == old(req.Value()).(params := req.params, headers := req.headers)
    ensures req.headers == if req.content == [] then old(req.headers) else WithHeader(old(req.headers), CONTENT_TYPE)
    ensures Parsed(req.params, files.items, ok)
         == ContentOf(old(Lookup(req.headers, CONTENT_TYPE)), req.content, Parsed(old(req.params), old(files.items), true))
  {
    hide SamePrefix, Pairs, Collect, BodyPieces, BoundaryOf, Lookup, WithHeader;
    if req.content == [] {
      return true;
    }
    var contentType := req.Header(CONTENT_TYPE);
    var pairs := contentType == [];
    if !pairs {
      pairs := StringsAreEqual(contentType, URLENCODED, |URLENCODED|);
    }
    if pairs {
      ParsePairs(req);
      return true;
    }
    var parts := StringsAreEqual(MULTIPART, contentType, |MULTIPART|);
    if !parts {
      return true;
    }
    PrefixFits(MULTIPART, contentType, |MULTIPART|);
    ok := ParseParts(req, files, BoundaryOf(contentType));
  }

  lemma PrefixFits(s: Bytes, t: Bytes, n: nat)
    requires SamePrefix(s, t, n)
    ensures n <= |t|
  {
  }
}
