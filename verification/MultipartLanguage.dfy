/**
 What every body in parts means, however it was written: the pieces of a body, the boundary that a content type
 names, and the fields of a part.
 */
module MultipartLanguage {
  import opened ByteSearch
  import opened ByteStrings
  import opened FormContent
  import opened Multipart
  import opened MultipartBody
  import PercentCoding

  // ---------- First matches ----------

  /** Behind the text the needle stands for the first time. */
  predicate Apart(text: Bytes, needle: Bytes) {
    forall i: nat | i < |text| :: !OccursAt(text + needle, needle, i)
  }

  predicate Absent(text: Bytes, needle: Bytes) {
    forall i: nat | i <= |text| :: !OccursAt(text, needle, i)
  }

  lemma OccursInFront(s: Bytes, t: Bytes, needle: Bytes, i: nat)
    requires i + |needle| <= |s|
    ensures OccursAt(s + t, needle, i) <==> OccursAt(s, needle, i)
  {
    assert (s + t)[i..i + |needle|] == s[i..i + |needle|];
  }

  lemma FirstMatch(text: Bytes, needle: Bytes, t: Bytes)
    requires Apart(text, needle)
    ensures Find(text + (needle + t), needle, 0) == Some(|text|)
  {
    var s := text + (needle + t);
    assert s == text + needle + t;
    assert OccursAt(s, needle, |text|) by { assert s[|text|..|text| + |needle|] == needle; }
    forall i: nat | i < |text|
      ensures !OccursAt(s, needle, i)
    {
      OccursInFront(text + needle, t, needle, i);
    }
  }

  lemma NoMatch(text: Bytes, needle: Bytes)
    ensures Find(text, needle, 0).None? <==> Absent(text, needle)
  {
  }

  /** What was found cuts the text. */
  lemma MatchCuts(s: Bytes, needle: Bytes)
    requires Find(s, needle, 0).Some?
    ensures var i := Find(s, needle, 0).value;
            i + |needle| <= |s| && Apart(s[..i], needle) && s == s[..i] + (needle + s[i + |needle|..])
  {
    var i := Find(s, needle, 0).value;
    var front, t := s[..i], s[i + |needle|..];
    assert s[i..i + |needle|] == needle;
    assert s == front + needle + t;
    forall j: nat | j < |front|
      ensures !OccursAt(front + needle, needle, j)
    {
      OccursInFront(front + needle, t, needle, j);
    }
  }

  // ---------- Pieces ----------

  /** What comes behind the last separator: a piece and the final separator, or none. */
  datatype End = Unended(text: Bytes) | Ended(piece: Bytes, trailer: Bytes)

  function EndText(e: End, final: Bytes): Bytes {
    match e
    case Unended(text) => text
    case Ended(piece, trailer) => piece + (final + trailer)
  }

  predicate ProperEnd(e: End, sep: Bytes, final: Bytes) {
    && Absent(EndText(e, final), sep)
    && match e
       case Unended(text) => Absent(text, final)
       case Ended(piece, _) => Apart(piece, final)
  }

  function EndPieces(e: End): seq<Bytes> {
    match e
    case Unended(_) => []
    case Ended(piece, _) => [piece]
  }

  /** Pieces, each with a separator behind it, and then the end. */
  function Cut(pieces: seq<Bytes>, sep: Bytes, end: Bytes): Bytes {
    if pieces == [] then end else pieces[0] + (sep + Cut(pieces[1..], sep, end))
  }

  predicate AllApart(pieces: seq<Bytes>, sep: Bytes) {
    forall i | 0 <= i < |pieces| :: Apart(pieces[i], sep)
  }

  lemma EndRead(e: End, sep: Bytes, final: Bytes)
    requires sep != [] && ProperEnd(e, sep, final)
    ensures Pieces(EndText(e, final), sep, final) == EndPieces(e)
  {
    hide Find, OccursAt, Apart, Absent;
    var s := EndText(e, final);
    NoMatch(s, sep);
    match e
    case Unended(text) => NoMatch(text, final);
    case Ended(piece, trailer) => FirstMatch(piece, final, trailer);
  }

  lemma PieceRead(piece: Bytes, t: Bytes, sep: Bytes, final: Bytes)
    requires sep != [] && Apart(piece, sep)
    ensures Pieces(piece + (sep + t), sep, final) == [piece] + Pieces(t, sep, final)
  {
    hide Find, OccursAt, Apart;
    var s := piece + (sep + t);
    FirstMatch(piece, sep, t);
    assert s[..|piece|] == piece && s[|piece| + |sep|..] == t;
  }

  lemma {:induction false} PiecesRead(pieces: seq<Bytes>, e: End, sep: Bytes, final: Bytes)
    requires sep != [] && AllApart(pieces, sep) && ProperEnd(e, sep, final)
    ensures Pieces(Cut(pieces, sep, EndText(e, final)), sep, final) == pieces + EndPieces(e)
    decreases |pieces|
  {
    hide Pieces, Apart, ProperEnd, EndText, EndPieces;
    if pieces == [] {
      EndRead(e, sep, final);
      assert [] + EndPieces(e) == EndPieces(e);
    } else {
      PieceRead(pieces[0], Cut(pieces[1..], sep, EndText(e, final)), sep, final);
      PiecesRead(pieces[1..], e, sep, final);
      assert [pieces[0]] + (pieces[1..] + EndPieces(e)) == pieces + EndPieces(e);
    }
  }

  lemma EndSplit(s: Bytes, sep: Bytes, final: Bytes) returns (e: End)
    requires Absent(s, sep)
    ensures ProperEnd(e, sep, final) && s == EndText(e, final)
  {
    hide Find, OccursAt, Apart, Absent;
    NoMatch(s, final);
    match Find(s, final, 0)
    case None => e := Unended(s);
    case Some(i) =>
      MatchCuts(s, final);
      e := Ended(s[..i], s[i + |final|..]);
  }

  lemma {:induction false} PiecesSplit(s: Bytes, sep: Bytes, final: Bytes) returns (pieces: seq<Bytes>, e: End)
    requires sep != []
    ensures AllApart(pieces, sep) && ProperEnd(e, sep, final) && s == Cut(pieces, sep, EndText(e, final))
    decreases |s|
  {
    hide Find, OccursAt, Apart, Absent, ProperEnd, EndText;
    NoMatch(s, sep);
    match Find(s, sep, 0)
    case None =>
      e := EndSplit(s, sep, final);
      pieces := [];
    case Some(i) =>
      MatchCuts(s, sep);
      var others;
      others, e := PiecesSplit(s[i + |sep|..], sep, final);
      pieces := [s[..i]] + others;
      assert pieces[1..] == others;
  }

  // ---------- Bodies ----------

  function SeparatorText(boundary: Bytes): Bytes {
    ['-' as int, '-' as int] + boundary + ['\r' as int, '\n' as int]
  }

  function FinalText(boundary: Bytes): Bytes {
    ['-' as int, '-' as int] + boundary + ['-' as int, '-' as int] + ['\r' as int, '\n' as int]
  }

  /** A body with a separator in it, or one without, of which as much is skipped as a separator less one byte is long. */
  datatype Form = Parted(lead: Bytes, pieces: seq<Bytes>, end: End) | Unparted(skipped: Bytes, end: End) | Short(text: Bytes)

  function FormText(f: Form, boundary: Bytes): Bytes {
    match f
    case Parted(lead, pieces, e) => lead + (SeparatorText(boundary) + Cut(pieces, SeparatorText(boundary), EndText(e, FinalText(boundary))))
    case Unparted(skipped, e) => skipped + EndText(e, FinalText(boundary))
    case Short(text) => text
  }

  predicate ProperForm(f: Form, boundary: Bytes) {
    var sep, final := SeparatorText(boundary), FinalText(boundary);
    match f
    case Parted(lead, pieces, e) => Apart(lead, sep) && AllApart(pieces, sep) && ProperEnd(e, sep, final)
    case Unparted(skipped, e) => |skipped| == |boundary| + 3 && Absent(FormText(f, boundary), sep) && ProperEnd(e, sep, final)
    case Short(text) => |text| < |boundary| + 3
  }

  function FormPieces(f: Form): seq<Bytes> {
    match f
    case Parted(_, pieces, e) => pieces + EndPieces(e)
    case Unparted(_, e) => EndPieces(e)
    case Short(_) => []
  }

  lemma SameTexts(boundary: Bytes)
    ensures Separator(boundary) == SeparatorText(boundary) && Final(boundary) == FinalText(boundary)
    ensures |SeparatorText(boundary)| == |boundary| + 4
  {
  }

  lemma ShortAbsent(text: Bytes, needle: Bytes)
    requires |text| < |needle|
    ensures Absent(text, needle)
  {
  }

  /** A body of each form is cut into its pieces. */
  lemma FormRead(f: Form, boundary: Bytes)
    requires ProperForm(f, boundary)
    ensures BodyPieces(FormText(f, boundary), boundary) == FormPieces(f)
  {
    hide Find, OccursAt, Apart, Absent, Pieces, ProperEnd, EndText, EndPieces, Cut, AllApart, Separator, Final, SeparatorText, FinalText;
    SameTexts(boundary);
    var sep, final := SeparatorText(boundary), FinalText(boundary);
    var s := FormText(f, boundary);
    match f
    case Parted(lead, pieces, e) =>
      var rest := Cut(pieces, sep, EndText(e, final));
      FirstMatch(lead, sep, rest);
      assert s[|lead| + |sep|..] == rest;
      PiecesRead(pieces, e, sep, final);
    case Unparted(skipped, e) =>
      NoMatch(s, sep);
      assert s[|skipped|..] == EndText(e, final);
      EndRead(e, sep, final);
    case Short(text) =>
      ShortAbsent(text, sep);
      NoMatch(text, sep);
  }

  lemma TailAbsent(s: Bytes, k: nat, needle: Bytes)
    requires Absent(s, needle) && k <= |s|
    ensures Absent(s[k..], needle)
  {
    forall i: nat | i <= |s[k..]|
      ensures !OccursAt(s[k..], needle, i)
    {
      OccursShift(s, needle, k, i);
    }
  }

  /** Every body has one of the forms. */
  lemma FormSplit(s: Bytes, boundary: Bytes) returns (f: Form)
    ensures ProperForm(f, boundary) && s == FormText(f, boundary)
  {
    hide Find, OccursAt, Apart, Absent, ProperEnd, EndText, Cut, AllApart, SeparatorText, FinalText;
    SameTexts(boundary);
    var sep, final := SeparatorText(boundary), FinalText(boundary);
    NoMatch(s, sep);
    match Find(s, sep, 0)
    case Some(i) =>
      MatchCuts(s, sep);
      var pieces, e := PiecesSplit(s[i + |sep|..], sep, final);
      f := Parted(s[..i], pieces, e);
    case None =>
      if |s| < |boundary| + 3 {
        f := Short(s);
      } else {
        TailAbsent(s, |boundary| + 3, sep);
        var e := EndSplit(s[|boundary| + 3..], sep, final);
        f := Unparted(s[..|boundary| + 3], e);
        assert s == FormText(f, boundary);
      }
  }

  /** For every body and boundary, the body has a form, and its pieces are those of the form. */
  lemma EveryBody(s: Bytes, boundary: Bytes)
    ensures exists f :: ProperForm(f, boundary) && s == FormText(f, boundary)
    ensures forall f | ProperForm(f, boundary) && s == FormText(f, boundary) :: BodyPieces(s, boundary) == FormPieces(f)
  {
    hide ProperForm, FormText, FormPieces, BodyPieces;
    var f0 := FormSplit(s, boundary);
    assert ProperForm(f0, boundary) && s == FormText(f0, boundary);
    forall f | ProperForm(f, boundary) && s == FormText(f, boundary)
      ensures BodyPieces(s, boundary) == FormPieces(f)
    {
      FormRead(f, boundary);
    }
  }

  // ---------- The boundary ----------

  /** The label before a boundary. */
  lemma LabelSpelt()
    ensures Spells(BOUNDARY_IS, "boundary=")
  {
  }

  /** The boundary is what comes behind the first label, up to a semicolon. */
  lemma BoundaryBehind(front: Bytes, boundary: Bytes, tail: Bytes)
    requires Apart(front, BOUNDARY_IS) && SEMICOLON !in boundary && (tail == [] || tail[0] == SEMICOLON)
    requires |front| >= |MULTIPART|
    ensures BoundaryOf(front + (BOUNDARY_IS + (boundary + tail))) == boundary
  {
    hide Find, OccursAt, Apart, BOUNDARY_IS, MULTIPART;
    var s := front + (BOUNDARY_IS + (boundary + tail));
    FirstMatch(front, BOUNDARY_IS, boundary + tail);
    assert s[|front| + |BOUNDARY_IS|..] == boundary + tail;
    CutAtSemicolon(boundary, tail);
  }

  /** Without a label, it is what comes behind the first eight bytes, up to a semicolon. */
  lemma BoundaryWithout(front: Bytes, boundary: Bytes, tail: Bytes)
    requires Absent(front + (boundary + tail), BOUNDARY_IS) && SEMICOLON !in boundary && (tail == [] || tail[0] == SEMICOLON)
    requires |front| == 8 && |front + (boundary + tail)| >= |MULTIPART|
    ensures BoundaryOf(front + (boundary + tail)) == boundary
  {
    hide Find, OccursAt, Absent, MULTIPART;
    var s := front + (boundary + tail);
    NoMatch(s, BOUNDARY_IS);
    assert s[8..] == boundary + tail;
    CutAtSemicolon(boundary, tail);
  }

  // ---------- Parts ----------

  /** The texts around the fields of a head. */
  lemma HeadSpelt()
    ensures Spells(DISPOSITION, "Content-Disposition: ") && Spells(NAME_IS, "name=\"") && Spells(FILENAME_IS, "filename=\"")
    ensures Spells(TYPE_IS, "Content-Type: ") && Spells(CRLFCRLF, "\r\n\r\n")
  {
  }

  /** Between two texts: what follows the first match of the one, up to the next match of the other; and nothing if one is missing. */
  lemma Extracted(front: Bytes, open: Bytes, value: Bytes, close: Bytes, t: Bytes)
    requires Apart(front, open) && Apart(value, close)
    ensures ExtractBetween(front + (open + (value + (close + t))), open, close) == value
  {
    hide OccursAt, Apart;
    var rest := value + (close + t);
    var s := front + (open + rest);
    var k := |front| + |open|;
    FirstMatch(front, open, rest);
    FirstMatch(value, close, t);
    assert s[k..] == rest;
    FindBehind(s, close, k);
    hide Find;
    assert s[k..k + |value|] == value;
  }

  lemma ExtractedNothing(front: Bytes, open: Bytes, value: Bytes, close: Bytes)
    ensures Absent(front, open) ==> ExtractBetween(front, open, close) == []
    ensures Apart(front, open) && Absent(value, close) ==> ExtractBetween(front + (open + value), open, close) == []
  {
    hide OccursAt, Apart, Absent;
    NoMatch(front, open);
    if Apart(front, open) && Absent(value, close) {
      var s := front + (open + value);
      var k := |front| + |open|;
      FirstMatch(front, open, value);
      NoMatch(value, close);
      assert s[k..] == value;
      FindBehind(s, close, k);
    }
  }

  lemma FindBehind(s: Bytes, needle: Bytes, k: nat)
    requires k <= |s|
    ensures Find(s, needle, k) == match Find(s[k..], needle, 0) { case None => None case Some(i) => Some(k + i) }
  {
    hide OccursAt;
    forall i: nat
      ensures OccursAt(s[k..], needle, i) <==> OccursAt(s, needle, k + i)
    {
      OccursShift(s, needle, k, i);
    }
    match Find(s, needle, k)
    case Some(i) => assert OccursAt(s[k..], needle, i - k);
    case None =>
  }

  /** What a head and a value amount to: an upload if the filename, decoded, is not empty. */
  function PartOf(head: PartHeader, value: Bytes): Part {
    if head.filename == [] then Field(head.name, value) else File(head.name, head.filename, head.filetype, value)
  }

  /** Every part whose head has an end: the value is what follows without its last two bytes, or all of fewer than two. */
  lemma EveryPart(head: Bytes, value: Bytes, end: Bytes)
    requires Apart(head, CRLFCRLF) && (|end| == 2 || (|end| == 0 && |value| < 2))
    ensures ParsePart(head + (CRLFCRLF + (value + end))) == Some(PartOf(ParseHeader(head + CRLFCRLF), value))
  {
    hide Find, OccursAt, Apart, ParseHeader, CRLFCRLF;
    var s := head + (CRLFCRLF + (value + end));
    FirstMatch(head, CRLFCRLF, value + end);
    assert s[|head| + |CRLFCRLF|..] == value + end && s[..|head| + |CRLFCRLF|] == head + CRLFCRLF;
    assert (value + end)[..|value|] == value;
    assert end == [] ==> value + end == value;
  }
}
