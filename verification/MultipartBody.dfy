/** Boundaries: how a body is cut into its parts (`parse_content` of `src/request_parser.cpp`). */
module MultipartBody {
  import opened ByteSearch
  import opened ByteStrings
  import opened HttpRequestParser
  import opened Multipart

  datatype Upload = Upload(name: Bytes, filename: Bytes, filetype: Bytes, data: Bytes)

  /** What a body adds to a request, and whether all of it could be read. */
  datatype Parsed = Parsed(params: seq<NameValue>, uploads: seq<Upload>, ok: bool)

  function Separator(boundary: Bytes): Bytes {
    DASHES + boundary + CRLF
  }

  function Final(boundary: Bytes): Bytes {
    DASHES + boundary + DASHES + CRLF
  }

  /** The pieces between one separator and the next, and between the last one and the final one. */
  function Pieces(s: Bytes, sep1: Bytes, sep2: Bytes): seq<Bytes>
    requires sep1 != []
    decreases |s|
  {
    match Find(s, sep1, 0)
    case Some(i) =>
      OccursFits(s, sep1, i);
      [s[..i]] + Pieces(s[i + |sep1|..], sep1, sep2)
    case None =>
      match Find(s, sep2, 0)
      case Some(i) => OccursFits(s, sep2, i); [s[..i]]
      case None => []
  }

  /** The pieces of a body. Without a first separator the scan starts where `npos` plus its size wraps to. */
  function BodyPieces(content: Bytes, boundary: Bytes): seq<Bytes> {
    var sep1, sep2 := Separator(boundary), Final(boundary);
    match Find(content, sep1, 0)
    case Some(i) =>
      OccursFits(content, sep1, i);
      Pieces(content[i + |sep1|..], sep1, sep2)
    case None => if |sep1| - 1 > |content| then [] else Pieces(content[|sep1| - 1..], sep1, sep2)
  }

  function AddPart(part: Part, before: Parsed): Parsed {
    match part
    case Field(name, value) => before.(params := before.params + [NameValue(name, value)])
    case File(name, filename, filetype, value) =>
      before.(uploads := before.uploads + [Upload(name, filename, filetype, value)])
  }

  /** The parts are added in order, up to the first one whose head does not end. */
  function Collect(pieces: seq<Bytes>, before: Parsed): Parsed {
    if pieces == [] then before
    else
      match ParsePart(pieces[0])
      case None => before.(ok := false)
      case Some(part) => Collect(pieces[1..], AddPart(part, before))
  }

  /** The same for parts that are known. */
  function CollectParts(parts: seq<Part>, before: Parsed): Parsed {
    if parts == [] then before else CollectParts(parts[1..], AddPart(parts[0], before))
  }

  // ---------- The text a client sends ----------

  function Body(boundary: Bytes, parts: seq<Part>): Bytes {
    if parts == [] then Final(boundary)
    else Separator(boundary) + Render(parts[0]) + CRLF + Body(boundary, parts[1..])
  }

  predicate AllDashes(boundary: Bytes) {
    forall c | c in boundary :: c == MINUS
  }

  /** The boundary is one line, and does not stand in what it separates. */
  ghost predicate Separates(boundary: Bytes, parts: seq<Part>) {
    && CR !in boundary && LF !in boundary
    && forall part, i: nat | part in parts :: !OccursAt(Render(part), DASHES + boundary, i)
  }

  /** What arrives: with a boundary of dashes only, the last value has a line end that was not sent. */
  function Received(boundary: Bytes, parts: seq<Part>): (r: seq<Part>)
    ensures |r| == |parts|
  {
    if parts == [] || !AllDashes(boundary) then parts
    else
      var last := parts[|parts| - 1];
      parts[|parts| - 1 := last.(value := last.value + CRLF)]
  }

  // ---------- Only dashes commute with two dashes ----------

  lemma {:induction false} Commuting(b: Bytes, i: nat)
    requires b + DASHES == DASHES + b && i < |b|
    ensures b[i] == MINUS
  {
    if i < 2 {
      assert b[i] == (b + DASHES)[i] == (DASHES + b)[i] == MINUS;
    } else {
      Commuting(b, i - 2);
      assert b[i] == (b + DASHES)[i] == (DASHES + b)[i] == b[i - 2];
    }
  }

  lemma CommutesWithDashes(b: Bytes)
    ensures b + DASHES == DASHES + b <==> AllDashes(b)
  {
    if b + DASHES == DASHES + b {
      forall c | c in b
        ensures c == MINUS
      {
        var i :| 0 <= i < |b| && b[i] == c;
        Commuting(b, i);
      }
    }
    if AllDashes(b) {
      assert forall i | 0 <= i < |b| :: b[i] in b;
      assert forall i | 0 <= i < |b| + 2 :: (b + DASHES)[i] == MINUS && (DASHES + b)[i] == MINUS;
    }
  }

  /** Where a separator can stand in the final one: behind its first two dashes, if the boundary has no other bytes. */
  lemma SeparatorInFinal(b: Bytes, i: nat)
    requires CR !in b && LF !in b
    ensures OccursAt(Final(b), Separator(b), i) <==> i == 2 && AllDashes(b)
  {
    var sep1, sep2 := Separator(b), Final(b);
    CommutesWithDashes(b);
    assert sep1[|b| + 3] == LF;
    assert forall k | 2 <= k < |b| + 2 :: sep2[k] == b[k - 2] && b[k - 2] in b;
    assert forall k | 0 <= k < |b| + 5 :: sep2[k] != LF;
    if OccursAt(sep2, sep1, i) {
      OccursByte(sep2, sep1, i, |b| + 3);
      assert i == 2;
    }
    assert sep2[2..] == (b + DASHES) + CRLF;
    assert sep1 == (DASHES + b) + CRLF;
    if i == 2 {
      assert sep2[2..2 + |sep1|] == sep2[2..];
      assert sep2[2..][..|b| + 2] == b + DASHES && sep1[..|b| + 2] == DASHES + b;
    }
  }

  // ---------- The separators stand where they were put ----------

  /** A match of a text whose only line feed is its last byte does not cross the end of a line. */
  lemma Crossing(r: Bytes, sep: Bytes, u: Bytes, i: nat)
    requires r != [] && r[|r| - 1] == LF && i < |r|
    requires sep != [] && LF !in sep[..|sep| - 1]
    requires OccursAt(r + u, sep, i)
    ensures OccursAt(r, sep, i)
  {
    var k := |r| - 1 - i;
    assert forall j | 0 <= j < |sep| - 1 :: sep[j] == sep[..|sep| - 1][j];
    if k < |sep| - 1 {
      OccursByte(r + u, sep, i, k);
    }
    assert k >= |sep| - 1;
    assert (r + u)[i..i + |sep|] == r[i..i + |sep|];
  }

  /** A part followed by a line end holds neither separator. */
  lemma NotInPart(b: Bytes, r: Bytes, sep: Bytes, i: nat)
    requires forall j: nat :: !OccursAt(r, DASHES + b, j)
    requires sep == Separator(b) || sep == Final(b)
    ensures !OccursAt(r + CRLF, sep, i)
  {
    var d := DASHES + b;
    assert d <= sep && |sep| >= |d| + 2;
    assert (r + CRLF)[..|r|] == r;
    hide OccursAt, Separator, Final;
    if OccursAt(r + CRLF, sep, i) {
      OccursFits(r + CRLF, sep, i);
      OccursWithin(r + CRLF, sep, d, |r|, i);
    }
  }

  lemma LineFeeds(b: Bytes)
    requires LF !in b
    ensures LF !in Separator(b)[..|Separator(b)| - 1] && LF !in Final(b)[..|Final(b)| - 1]
  {
  }

  /** No separator begins within a part. */
  lemma NoneBegins(b: Bytes, r: Bytes, u: Bytes, sep: Bytes, i: nat)
    requires LF !in b && forall j: nat :: !OccursAt(r, DASHES + b, j)
    requires sep == Separator(b) || sep == Final(b)
    requires i < |r| + 2
    ensures !OccursAt(r + CRLF + u, sep, i)
  {
    hide OccursAt;
    LineFeeds(b);
    NotInPart(b, r, sep, i);
    if OccursAt(r + CRLF + u, sep, i) {
      Crossing(r + CRLF, sep, u, i);
    }
  }

  /** Behind a part the separator is found where it was put. */
  lemma FoundBehind(b: Bytes, r: Bytes, sep: Bytes, t: Bytes)
    requires LF !in b && forall j: nat :: !OccursAt(r, DASHES + b, j)
    requires sep == Separator(b) || sep == Final(b)
    ensures Find(r + CRLF + (sep + t), sep, 0) == Some(|r| + 2)
  {
    hide OccursAt, Separator, Final;
    OccursBehind(r + CRLF, sep, t);
    forall i: nat | i < |r| + 2
      ensures !OccursAt(r + CRLF + (sep + t), sep, i)
    {
      NoneBegins(b, r, sep + t, sep, i);
    }
  }

  lemma OccursBehind(r: Bytes, sep: Bytes, t: Bytes)
    ensures OccursAt(r + (sep + t), sep, |r|)
  {
    assert (r + (sep + t))[|r|..|r| + |sep|] == sep;
  }

  /** Behind the last part only dashes can be taken for a separator. */
  lemma FoundInFinal(b: Bytes, r: Bytes)
    requires CR !in b && LF !in b && forall j: nat :: !OccursAt(r, DASHES + b, j)
    ensures Find(r + CRLF + Final(b), Separator(b), 0) == if AllDashes(b) then Some(|r| + 4) else None
  {
    hide OccursAt, AllDashes, Separator, Final;
    var s, sep := r + CRLF + Final(b), Separator(b);
    forall i: nat
      ensures OccursAt(s, sep, i) <==> i == |r| + 4 && AllDashes(b)
    {
      if i < |r| + 2 {
        NoneBegins(b, r, Final(b), sep, i);
      } else {
        SeparatorInFinal(b, i - |r| - 2);
        OccursShift(s, sep, |r| + 2, i - |r| - 2);
        assert s[|r| + 2..] == Final(b);
      }
    }
    assert OccursAt(s, sep, |r| + 4) <==> AllDashes(b);
  }

  // ---------- Cutting a body ----------

  /** The pieces of a body that begins behind its first separator. */
  function Expected(b: Bytes, parts: seq<Part>): seq<Bytes> {
    if parts == [] then []
    else if |parts| == 1 then [Render(parts[0]) + CRLF + (if AllDashes(b) then DASHES else [])]
    else [Render(parts[0]) + CRLF] + Expected(b, parts[1..])
  }

  lemma SeparatesRest(b: Bytes, parts: seq<Part>)
    requires Separates(b, parts) && parts != []
    ensures CR !in b && LF !in b && forall j: nat :: !OccursAt(Render(parts[0]), DASHES + b, j)
    ensures Separates(b, parts[1..])
  {
    hide OccursAt, Render;
  }

  lemma PiecesStep(s: Bytes, sep1: Bytes, sep2: Bytes, i: nat)
    requires sep1 != [] && Find(s, sep1, 0) == Some(i)
    ensures i + |sep1| <= |s| && Pieces(s, sep1, sep2) == [s[..i]] + Pieces(s[i + |sep1|..], sep1, sep2)
  {
    OccursFits(s, sep1, i);
  }

  lemma PiecesEnd(s: Bytes, sep1: Bytes, sep2: Bytes)
    requires sep1 != [] && Find(s, sep1, 0) == None
    ensures Pieces(s, sep1, sep2) == match Find(s, sep2, 0) case Some(i) => (OccursFits(s, sep2, i); [s[..i]]) case None => []
  {
  }

  /** A part with another one behind it is cut off whole. */
  lemma PiecesMore(b: Bytes, r: Bytes, t: Bytes)
    requires LF !in b && forall j: nat :: !OccursAt(r, DASHES + b, j)
    ensures Separator(b) != []
    ensures Pieces(r + CRLF + (Separator(b) + t), Separator(b), Final(b)) == [r + CRLF] + Pieces(t, Separator(b), Final(b))
  {
    hide Find, Pieces, OccursAt;
    var sep1 := Separator(b);
    var s := r + CRLF + (sep1 + t);
    FoundBehind(b, r, sep1, t);
    PiecesStep(s, sep1, Final(b), |r| + 2);
    assert s[..|r| + 2] == r + CRLF && s[|r| + 2 + |sep1|..] == t;
  }

  /** The last part, too, unless the boundary is of dashes only. */
  lemma PiecesLast(b: Bytes, r: Bytes)
    requires CR !in b && LF !in b && forall j: nat :: !OccursAt(r, DASHES + b, j)
    ensures Separator(b) != []
    ensures Pieces(r + CRLF + Final(b), Separator(b), Final(b)) == [r + CRLF + (if AllDashes(b) then DASHES else [])]
  {
    hide Find, Pieces, OccursAt, AllDashes;
    var sep1, sep2 := Separator(b), Final(b);
    var s := r + CRLF + sep2;
    FoundInFinal(b, r);
    if AllDashes(b) {
      PiecesStep(s, sep1, sep2, |r| + 4);
      assert s[..|r| + 4] == r + CRLF + DASHES && s[|r| + 4 + |sep1|..] == [];
      PiecesOfNothing(sep1, sep2);
    } else {
      assert sep2 + [] == sep2;
      FoundBehind(b, r, sep2, []);
      PiecesEnd(s, sep1, sep2);
      assert s[..|r| + 2] == r + CRLF + [];
    }
  }

  lemma {:induction false} PiecesOfBody(b: Bytes, parts: seq<Part>)
    requires Separates(b, parts) && parts != []
    ensures Separator(b) != []
    ensures Pieces(Render(parts[0]) + CRLF + Body(b, parts[1..]), Separator(b), Final(b)) == Expected(b, parts)
  {
    hide Pieces, Render, AllDashes, Separates, OccursAt, Final;
    SeparatesRest(b, parts);
    var r := Render(parts[0]);
    if |parts| > 1 {
      var t := Render(parts[1]) + CRLF + Body(b, parts[1..][1..]);
      assert Body(b, parts[1..]) == Separator(b) + t;
      PiecesMore(b, r, t);
      PiecesOfBody(b, parts[1..]);
    } else {
      PiecesLast(b, r);
    }
  }

  lemma PiecesOfNothing(sep1: Bytes, sep2: Bytes)
    requires sep1 != [] && sep2 != []
    ensures Pieces([], sep1, sep2) == []
  {
  }

  lemma BodyCut(b: Bytes, parts: seq<Part>)
    requires Separates(b, parts)
    ensures BodyPieces(Body(b, parts), b) == Expected(b, parts)
  {
    hide Pieces, Render, AllDashes, Separates, OccursAt;
    var sep1, content := Separator(b), Body(b, parts);
    OneLineBoundary(b, parts);
    if parts == [] {
      NothingCut(b);
    } else {
      var t := Render(parts[0]) + CRLF + Body(b, parts[1..]);
      assert content == sep1 + t;
      FoundAtOnce(sep1, t);
      assert content[|sep1|..] == t;
      PiecesOfBody(b, parts);
    }
  }

  lemma OneLineBoundary(b: Bytes, parts: seq<Part>)
    requires Separates(b, parts)
    ensures CR !in b && LF !in b
  {
    hide OccursAt;
  }

  lemma FoundAtOnce(sep: Bytes, t: Bytes)
    ensures Find(sep + t, sep, 0) == Some(0)
  {
    assert (sep + t)[0..|sep|] == sep;
  }

  /** A body without parts. */
  lemma NothingCut(b: Bytes)
    requires CR !in b && LF !in b
    ensures BodyPieces(Final(b), b) == []
  {
    hide OccursAt, AllDashes;
    var sep1, sep2 := Separator(b), Final(b);
    match Find(sep2, sep1, 0)
    case Some(i) =>
      SeparatorInFinal(b, i);
      assert sep2[i + |sep1|..] == [];
      PiecesOfNothing(sep1, sep2);
    case None =>
      var rest := sep2[|sep1| - 1..];
      assert |rest| < |sep1| && |rest| < |sep2|;
      TooShort(rest, sep1);
      TooShort(rest, sep2);
      PiecesEnd(rest, sep1, sep2);
  }

  lemma TooShort(s: Bytes, sep: Bytes)
    requires |s| < |sep|
    ensures Find(s, sep, 0) == None
  {
  }

  // ---------- Collecting the parts ----------

  /** A piece that is refused ends the collection, and what was collected before it stays. */
  lemma {:induction false} CollectStops(pieces: seq<Bytes>, bad: Bytes, more: seq<Bytes>, before: Parsed)
    requires ParsePart(bad) == None && forall piece | piece in pieces :: ParsePart(piece).Some?
    ensures Collect(pieces + [bad] + more, before) == Collect(pieces, before).(ok := false)
    decreases |pieces|
  {
    hide ParsePart;
    var all := pieces + [bad] + more;
    if pieces == [] {
      assert all[0] == bad;
    } else {
      assert all[0] == pieces[0] && all[1..] == pieces[1..] + [bad] + more;
      CollectStops(pieces[1..], bad, more, AddPart(ParsePart(pieces[0]).value, before));
    }
  }


  lemma {:induction false} CollectExpected(b: Bytes, parts: seq<Part>, before: Parsed)
    requires forall part | part in parts :: Readable(part)
    ensures Collect(Expected(b, parts), before) == CollectParts(Received(b, parts), before)
  {
    hide Render, ParsePart, Readable, AllDashes;
    if |parts| == 1 {
      var part := parts[0];
      if AllDashes(b) {
        LastLengthened(part);
      } else {
        ReadableHead(part);
        PartRoundTrip(part, CRLF);
        assert Render(part) + CRLF + [] == Render(part) + CRLF;
      }
    } else if |parts| > 1 {
      ReadableHead(parts[0]);
      PartRoundTrip(parts[0], CRLF);
      CollectExpected(b, parts[1..], AddPart(parts[0], before));
      assert Received(b, parts)[1..] == Received(b, parts[1..]);
    }
  }

  /** The line end before the final separator is kept, and its first two dashes are dropped instead. */
  lemma LastLengthened(part: Part)
    requires Readable(part)
    ensures ParsePart(Render(part) + CRLF + DASHES) == Some(part.(value := part.value + CRLF))
  {
    hide ParsePart, Head;
    var longer := part.(value := part.value + CRLF);
    SameHead(part, longer);
    PartRoundTrip(longer, DASHES);
    assert Render(longer) + DASHES == Render(part) + CRLF + DASHES;
  }

  lemma SameHead(part: Part, longer: Part)
    requires longer == part.(value := longer.value)
    ensures Head(longer) == Head(part)
  {
  }

  /** A body in parts is read as the parts that were sent, except for what a boundary of dashes adds to the last one. */
  lemma MultipartRoundTrip(b: Bytes, parts: seq<Part>, before: Parsed)
    requires Separates(b, parts) && forall part | part in parts :: Readable(part)
    ensures Collect(BodyPieces(Body(b, parts), b), before) == CollectParts(Received(b, parts), before)
  {
    hide BodyPieces, Collect, CollectParts, Expected, Body, Readable, Separates;
    BodyCut(b, parts);
    CollectExpected(b, parts, before);
  }

  // ---------- What arrives ----------

  /** The parameter that a part becomes, if it is a field. */
  function FieldOf(part: Part): seq<NameValue> {
    if part.Field? then [NameValue(part.name, part.value)] else []
  }

  /** The upload that a part becomes, if it is a file. */
  function FileOf(part: Part): seq<Upload> {
    if part.File? then [Upload(part.name, part.filename, part.filetype, part.value)] else []
  }

  /** The parameters among the parts. */
  function Fields(parts: seq<Part>): seq<NameValue> {
    if parts == [] then [] else FieldOf(parts[0]) + Fields(parts[1..])
  }

  /** The uploads among the parts. */
  function Files(parts: seq<Part>): seq<Upload> {
    if parts == [] then [] else FileOf(parts[0]) + Files(parts[1..])
  }

  lemma AddPartSorts(part: Part, before: Parsed)
    ensures AddPart(part, before)
         == before.(params := before.params + FieldOf(part), uploads := before.uploads + FileOf(part))
  {
    assert before.params + [] == before.params && before.uploads + [] == before.uploads;
  }

  lemma Regroup<T>(a: seq<T>, b: seq<T>, c: seq<T>)
    ensures a + b + c == a + (b + c)
  {
  }

  /** Fields become parameters and files become uploads, each in order. */
  lemma {:induction false} CollectSorts(parts: seq<Part>, before: Parsed)
    ensures CollectParts(parts, before)
         == before.(params := before.params + Fields(parts), uploads := before.uploads + Files(parts))
  {
    hide AddPart, FieldOf, FileOf;
    if parts == [] {
      assert before.params + [] == before.params && before.uploads + [] == before.uploads;
    } else {
      AddPartSorts(parts[0], before);
      CollectSorts(parts[1..], AddPart(parts[0], before));
      Regroup(before.params, FieldOf(parts[0]), Fields(parts[1..]));
      Regroup(before.uploads, FileOf(parts[0]), Files(parts[1..]));
    }
  }

  lemma {:induction false} CollectSnoc(parts: seq<Part>, last: Part, before: Parsed)
    ensures CollectParts(parts + [last], before) == AddPart(last, CollectParts(parts, before))
  {
    if parts != [] {
      assert (parts + [last])[1..] == parts[1..] + [last];
      CollectSnoc(parts[1..], last, AddPart(parts[0], before));
    }
  }

  /** A longer value makes a difference. */
  lemma LongerDiffers(part: Part, before: Parsed)
    ensures AddPart(part.(value := part.value + CRLF), before) != AddPart(part, before)
  {
    var longer := part.(value := part.value + CRLF);
    var a, b := AddPart(longer, before), AddPart(part, before);
    assert |longer.value| == |part.value| + 2;
    if part.Field? {
      assert a.params[|before.params|].value == longer.value && b.params[|before.params|].value == part.value;
    } else {
      assert a.uploads[|before.uploads|].data == longer.value && b.uploads[|before.uploads|].data == part.value;
    }
  }

  lemma ReceivedDiffers(b: Bytes, parts: seq<Part>, before: Parsed)
    ensures CollectParts(Received(b, parts), before) == CollectParts(parts, before) <==> parts == [] || !AllDashes(b)
  {
    hide AllDashes;
    if parts != [] && AllDashes(b) {
      var front, last := parts[..|parts| - 1], parts[|parts| - 1];
      assert parts == front + [last];
      assert Received(b, parts) == front + [last.(value := last.value + CRLF)];
      CollectSnoc(front, last, before);
      CollectSnoc(front, last.(value := last.value + CRLF), before);
      LongerDiffers(last, CollectParts(front, before));
    }
  }

  /** The parts arrive as they were sent, if and only if there are none or the boundary has a byte that is no dash. */
  lemma ReceivedAsSent(b: Bytes, parts: seq<Part>, before: Parsed)
    requires Separates(b, parts) && forall part | part in parts :: Readable(part)
    ensures Collect(BodyPieces(Body(b, parts), b), before)
         == before.(params := before.params + Fields(parts), uploads := before.uploads + Files(parts))
        <==> parts == [] || !AllDashes(b)
  {
    hide BodyPieces, Collect, CollectParts, Body, Readable, Separates, Received, AllDashes, Fields, Files;
    MultipartRoundTrip(b, parts, before);
    ReceivedDiffers(b, parts, before);
    CollectSorts(parts, before);
  }
}
