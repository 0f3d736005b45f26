/** The converse of `HttpGrammar`: whatever the request parser accepts is a text of the language. */
module HttpLanguage {
  import opened ByteStrings
  import opened HttpSyntax
  import opened HttpRequestParser
  import opened HttpGrammar

  /** The states from the method to the last header line. */
  predicate InHead(st: State) {
    TargetState(st) || VersionState(st) || HeaderState(st)
  }

  /** From a state, the bytes lead the parser up to the first byte of the blank line. */
  predicate Passes(st: State, r: Req, s: Bytes)
    decreases |s|
  {
    && Ready(st, r)
    && (|| st == ExpectingNewline3
        || (&& s != []
            && var (verdict, st', r') := Step(st, r, s[0]);
               verdict == Indeterminate && Passes(st', r', s[1..])))
  }

  lemma Next(st: State, r: Req, s: Bytes)
    requires Passes(st, r, s) && InHead(st)
    ensures s != [] && Ready(st, r)
    ensures var (verdict, st', r') := Step(st, r, s[0]); verdict == Indeterminate && Passes(st', r', s[1..])
  {
    hide Step;
  }

  /** Behind the head the parser does not get back into it. */
  lemma {:induction false} StaysBehind(st: State, r: Req, s: Bytes)
    requires !InHead(st) && Run(st, r, s).result == Indeterminate
    ensures !InHead(Run(st, r, s).state)
    decreases |s|
  {
    if s != [] {
      var (_, st', r') := Step(st, r, s[0]);
      StaysBehind(st', r', s[1..]);
    }
  }

  lemma NotInHead()
    ensures !InHead(ExpectingNewline3)
  {
  }

  lemma {:induction false} After(st: State, r: Req, a: Bytes, st': State, r': Req, b: Bytes)
    requires Leads(st, r, a, st', r') && Passes(st, r, a + b) && InHead(st')
    ensures Passes(st', r', b)
    decreases |a|
  {
    hide Step, InHead;
    if a == [] {
      assert a + b == b;
    } else {
      if st == ExpectingNewline3 { NotInHead(); StaysBehind(st, r, a); }
      assert (a + b)[0] == a[0] && (a + b)[1..] == a[1..] + b;
      var (verdict, st1, r1) := Step(st, r, a[0]);
      After(st1, r1, a[1..], st', r', b);
    }
  }

  /** The number of bytes in front that satisfy a predicate. */
  function Span(s: Bytes, p: Byte -> bool): (k: nat)
    ensures k <= |s| && (forall c | c in s[..k] :: p(c)) && (k < |s| ==> !p(s[k]))
  {
    if s == [] || !p(s[0]) then 0
    else
      var k := Span(s[1..], p);
      assert s[..k + 1] == [s[0]] + s[1..][..k];
      k + 1
  }

  /** A method begins with a token byte, and behind its token bytes there is a space. */
  lemma MethodBytes(r: Req, s: Bytes)
    ensures Passes(MethodStart, r, s) ==> s != [] && IsTokenChar(s[0])
    ensures Passes(Method, r, s) ==> s != [] && (IsTokenChar(s[0]) || s[0] == SPACE)
  {
    hide Passes;
    if Passes(MethodStart, r, s) { Next(MethodStart, r, s); }
    if Passes(Method, r, s) { Next(Method, r, s); }
  }

  lemma VerbSplit(r: Req, s: Bytes) returns (verb: Bytes, rest: Bytes)
    requires Passes(MethodStart, r, s) && r.verb == []
    ensures IsToken(verb) && s == (verb + [SPACE]) + rest
  {
    hide Run, Passes, Step, Leads;
    MethodBytes(r, s);
    var k := Span(s, IsTokenChar);
    verb := s[..k];
    assert verb != [];
    VerbRead(r, verb);
    assert s == verb + s[k..];
    After(MethodStart, r, verb, Method, r.(verb := verb), s[k..]);
    MethodBytes(r.(verb := verb), s[k..]);
    rest := s[k + 1..];
    assert s[k..] == [s[k]] + rest;
  }

  lemma PathSplit(r: Req, s: Bytes) returns (path: Bytes, rest: Bytes)
    requires Passes(Uri, r, s)
    ensures PlainPath(path) && s == path + rest && rest != [] && rest[0] in {SPACE, QUESTION}
    ensures Passes(Uri, r.(uri := r.uri + path), rest)
  {
    hide Run, Passes;
    var k := Span(s, PathByte);
    path, rest := s[..k], s[k..];
    PathRead(r, path);
    hide Leads;
    assert s == path + rest;
    After(Uri, r, path, Uri, r.(uri := r.uri + path), rest);
    Next(Uri, r.(uri := r.uri + path), rest);
  }

  lemma NameSplit(r: Req, s: Bytes) returns (name: Bytes, rest: Bytes)
    requires Passes(ParamNameStart, r, s) && s[0] != SPACE
    ensures IsToken(name) && s == name + rest && rest != [] && rest[0] in {SPACE, EQUALS}
    ensures Passes(ParamName, r.(uri := r.uri + name, params := r.params + [NameValue(name, [])]), rest)
  {
    hide Run, Passes;
    Next(ParamNameStart, r, s);
    var k := Span(s, IsTokenChar);
    name, rest := s[..k], s[k..];
    assert name != [];
    var r' := r.(uri := r.uri + name, params := r.params + [NameValue(name, [])]);
    ParamNameRead(r, name);
    hide Leads;
    assert s == name + rest;
    After(ParamNameStart, r, name, ParamName, r', rest);
    Next(ParamName, r', rest);
  }

  lemma ValueSplit(r: Req, s: Bytes) returns (value: Bytes, rest: Bytes)
    requires Passes(ParamValue, r, s)
    ensures (forall c | c in value :: ValueByte(c)) && s == value + rest && rest != [] && rest[0] in {SPACE, AMPERSAND}
  {
    hide Run, Passes;
    Next(ParamValue, r, s);
    var k := Span(s, ValueByte);
    value, rest := s[..k], s[k..];
    ParamValueLoop(r, value);
    hide Leads;
    assert s == value + rest;
    After(ParamValue, r, value, ParamValue, ValueAdded(r, value), rest);
    Next(ParamValue, ValueAdded(r, value), rest);
  }

  /** A name, and its value when it has one. */
  lemma ParamSplit(r: Req, s: Bytes) returns (tail: Tail, rest: Bytes)
    requires Passes(ParamNameStart, r, s) && s[0] != SPACE
    ensures !tail.Nothing? && PlainTail(tail) && s == TailText(tail) + rest && rest != []
    ensures rest[0] == SPACE || (rest[0] == AMPERSAND && tail.Full?)
  {
    hide Run, Passes, Step;
    var name, more := NameSplit(r, s);
    if more[0] == SPACE {
      tail, rest := Bare(name), more;
    } else {
      var r' := r.(uri := r.uri + name, params := r.params + [NameValue(name, [])]);
      EqualsRead(r');
      assert more == [EQUALS] + more[1..];
      After(ParamName, r', [EQUALS], ParamValue, r'.(uri := r'.uri + [EQUALS]), more[1..]);
      var value;
      value, rest := ValueSplit(r'.(uri := r'.uri + [EQUALS]), more[1..]);
      tail := Full(NameValue(name, value));
      assert s == name + ([EQUALS] + (value + rest));
    }
  }

  lemma {:induction false} QuerySplit(r: Req, s: Bytes) returns (q: Query, rest: Bytes)
    requires Passes(ParamNameStart, r, s)
    ensures PlainQuery(q) && s == (QueryText(q) + [SPACE]) + rest
    decreases |s|
  {
    hide Run, Passes, Step, PlainParam, ParamText;
    Next(ParamNameStart, r, s);
    if s[0] == SPACE {
      q, rest := Query([], Nothing), s[1..];
      assert s == [SPACE] + rest;
    } else {
      var tail, more := ParamSplit(r, s);
      if more[0] == SPACE {
        q, rest := Query([], tail), more[1..];
        assert more == [SPACE] + rest;
      } else {
        var p := tail.param;
        var a := FrontText([p]);
        assert [p][1..] == [];
        assert a == ParamText(p) + [AMPERSAND];
        FrontRead(r, [p]);
        assert s == a + more[1..];
        var r' := r.(uri := r.uri + a, params := r.params + [p]);
        After(ParamNameStart, r, a, ParamNameStart, r', more[1..]);
        var q';
        q', rest := QuerySplit(r', more[1..]);
        q := Query([p] + q'.front, q'.tail);
        assert ([p] + q'.front)[1..] == q'.front;
        assert FrontText(q.front) == a + FrontText(q'.front);
      }
    }
  }

  lemma TargetSplit(r: Req, s: Bytes) returns (path: Bytes, query: Option<Query>, rest: Bytes)
    requires Passes(Uri, r, s)
    ensures PlainPath(path) && (query.Some? ==> PlainQuery(query.value))
    ensures s == (path + (match query { case None => [] case Some(q) => [QUESTION] + QueryText(q) }) + [SPACE]) + rest
  {
    hide Run, Passes, Step, PlainPath, PlainQuery, QueryText;
    var more;
    path, more := PathSplit(r, s);
    if more[0] == SPACE {
      query, rest := None, more[1..];
      assert more == [SPACE] + rest;
    } else {
      var r' := r.(uri := r.uri + path);
      QuestionRead(r');
      assert more == [QUESTION] + more[1..];
      After(Uri, r', [QUESTION], ParamNameStart, r'.(uri := r'.uri + [QUESTION]), more[1..]);
      var q;
      q, rest := QuerySplit(r'.(uri := r'.uri + [QUESTION]), more[1..]);
      query := Some(q);
      assert path + ([QUESTION] + ((QueryText(q) + [SPACE]) + rest)) == (path + ([QUESTION] + QueryText(q)) + [SPACE]) + rest;
    }
  }

  lemma SlashSplit(r: Req, s: Bytes) returns (rest: Bytes)
    requires Passes(HttpVersionH, r, s)
    ensures s == HTTP_SLASH + rest
  {
    hide Run, Passes;
    Next(HttpVersionH, r, s);
    Next(HttpVersionT1, r, s[1..]);
    Next(HttpVersionT2, r, s[2..]);
    Next(HttpVersionP, r, s[3..]);
    Next(HttpVersionSlash, r, s[4..]);
    rest := s[5..];
  }

  lemma MajorSplit(r: Req, s: Bytes) returns (digits: Bytes, rest: Bytes)
    requires Passes(HttpVersionMajorStart, r, s) && r.major == 0
    ensures Digits(digits) && s == digits + ([DOT] + rest)
    ensures Passes(HttpVersionMinorStart, r.(major := Magnitude(digits, 10, 0)), rest)
  {
    hide Run, Passes;
    Next(HttpVersionMajorStart, r, s);
    var k := Span(s, IsDigit);
    digits := s[..k];
    assert digits != [];
    var r' := r.(major := Magnitude(digits, 10, 0));
    MajorRead(r, digits);
    hide Leads, Magnitude;
    assert s == digits + s[k..];
    After(HttpVersionMajorStart, r, digits, HttpVersionMajor, r', s[k..]);
    Next(HttpVersionMajor, r', s[k..]);
    rest := s[k + 1..];
    assert s[k..] == [DOT] + rest;
  }

  lemma MinorSplit(r: Req, s: Bytes) returns (digits: Bytes, rest: Bytes)
    requires Passes(HttpVersionMinorStart, r, s) && r.minor == 0
    ensures Digits(digits) && s == digits + (CRLF + rest)
  {
    hide Run, Passes;
    Next(HttpVersionMinorStart, r, s);
    var k := Span(s, IsDigit);
    digits := s[..k];
    assert digits != [];
    var r' := r.(minor := Magnitude(digits, 10, 0));
    MinorRead(r, digits);
    hide Leads, Magnitude;
    assert s == digits + s[k..];
    After(HttpVersionMinorStart, r, digits, HttpVersionMinor, r', s[k..]);
    Next(HttpVersionMinor, r', s[k..]);
    Next(ExpectingNewline1, r', s[k..][1..]);
    rest := s[k..][2..];
    assert s[k..] == CRLF + rest;
  }

  lemma VersionSplit(r: Req, s: Bytes) returns (major: Bytes, minor: Bytes, rest: Bytes)
    requires Passes(HttpVersionH, r, s)
    ensures Digits(major) && Digits(minor) && s == (HTTP_SLASH + (major + ([DOT] + (minor + CRLF)))) + rest
  {
    hide Run, Passes, Step, Leads, Digits, Magnitude;
    var r0 := r.(major := 0, minor := 0);
    var t := SlashSplit(r, s);
    HttpSlashRead(r);
    After(HttpVersionH, r, HTTP_SLASH, HttpVersionMajorStart, r0, t);
    var t';
    major, t' := MajorSplit(r0, t);
    minor, rest := MinorSplit(r0.(major := Magnitude(major, 10, 0)), t');
    assert minor + (CRLF + rest) == (minor + CRLF) + rest;
    assert major + ([DOT] + ((minor + CRLF) + rest)) == (major + ([DOT] + (minor + CRLF))) + rest;
  }

  lemma FieldSplit(r: Req, s: Bytes) returns (h: NameValue, rest: Bytes)
    requires Passes(HeaderLineStart, r, s) && s[0] != CR && !(r.headers != [] && IsBlank(s[0]))
    ensures PlainHeader(h) && s == LineText(Field(h)) + rest
  {
    hide Run, Passes, Leads;
    var name, more := FieldNameSplit(r, s);
    var r1 := r.(headers := r.headers + [NameValue(name, [])]);
    ColonSpace(r1);
    After(HeaderName, r1, [COLON, SPACE], HeaderValue, r1, more);
    var value;
    value, rest := TextSplit(r1, more);
    h := NameValue(name, value);
    assert name + ([COLON, SPACE] + (value + (CRLF + rest))) == (name + ([COLON, SPACE] + (value + CRLF))) + rest;
  }

  lemma FieldNameSplit(r: Req, s: Bytes) returns (name: Bytes, rest: Bytes)
    requires Passes(HeaderLineStart, r, s) && s[0] != CR && !(r.headers != [] && IsBlank(s[0]))
    ensures IsToken(name) && s == name + ([COLON, SPACE] + rest)
    ensures Passes(HeaderName, r.(headers := r.headers + [NameValue(name, [])]), [COLON, SPACE] + rest)
  {
    hide Run, Passes;
    Next(HeaderLineStart, r, s);
    var k := Span(s, IsTokenChar);
    name := s[..k];
    assert name != [];
    var r1 := r.(headers := r.headers + [NameValue(name, [])]);
    FieldNameRead(r, name);
    hide Leads;
    assert s == name + s[k..];
    After(HeaderLineStart, r, name, HeaderName, r1, s[k..]);
    Next(HeaderName, r1, s[k..]);
    Next(SpaceBeforeHeaderValue, r1, s[k..][1..]);
    rest := s[k..][2..];
    assert s[k..] == [COLON, SPACE] + rest;
  }

  /** Where no byte of a text comes, the line ends. */
  lemma TextEnd(r: Req, s: Bytes) returns (rest: Bytes)
    requires Passes(HeaderValue, r, s) && (s != [] ==> !TextByte(s[0]))
    ensures s == CRLF + rest
  {
    hide Run, Passes;
    Next(HeaderValue, r, s);
    Next(ExpectingNewline2, r, s[1..]);
    rest := s[2..];
  }

  /** The rest of a line of a header value. */
  lemma TextSplit(r: Req, s: Bytes) returns (text: Bytes, rest: Bytes)
    requires Passes(HeaderValue, r, s)
    ensures PlainText(text) && s == text + (CRLF + rest)
  {
    Next(HeaderValue, r, s);
    hide Run, Passes, Step, Leads, HeaderAdded;
    var k := Span(s, TextByte);
    text := s[..k];
    HeaderValueLoop(r, text);
    assert s == text + s[k..];
    HeadersStay(r, text);
    After(HeaderValue, r, text, HeaderValue, HeaderAdded(r, [], text), s[k..]);
    rest := TextEnd(HeaderAdded(r, [], text), s[k..]);
  }

  lemma HeadersStay(r: Req, text: Bytes)
    requires r.headers != []
    ensures HeaderAdded(r, [], text).headers != []
  {
  }

  lemma FoldedSplit(r: Req, s: Bytes) returns (blanks: Bytes, text: Bytes, rest: Bytes)
    requires Passes(HeaderLineStart, r, s) && r.headers != [] && IsBlank(s[0])
    ensures PlainLine(Folded(blanks, text)) && s == LineText(Folded(blanks, text)) + rest
  {
    hide Run, Passes;
    Next(HeaderLineStart, r, s);
    var k := Span(s, IsBlank);
    blanks := s[..k];
    assert blanks != [];
    BlanksBegin(r, blanks);
    hide Leads;
    assert s == blanks + s[k..];
    After(HeaderLineStart, r, blanks, HeaderLws, r, s[k..]);
    text, rest := FoldTextSplit(r, s[k..]);
    assert blanks + (text + (CRLF + rest)) == (blanks + (text + CRLF)) + rest;
  }

  lemma FoldTextSplit(r: Req, s: Bytes) returns (text: Bytes, rest: Bytes)
    requires Passes(HeaderLws, r, s) && (s != [] ==> !IsBlank(s[0]))
    ensures PlainText(text) && (text != [] ==> text[0] != SPACE) && s == text + (CRLF + rest)
  {
    hide Run, Passes;
    Next(HeaderLws, r, s);
    if s[0] == CR {
      Next(ExpectingNewline2, r, s[1..]);
      text, rest := [], s[2..];
      assert s == CRLF + rest;
    } else {
      var more;
      more, rest := TextSplit(r.(headers := AddValue(r.headers, s[0])), s[1..]);
      text := [s[0]] + more;
      assert s == [s[0]] + s[1..];
    }
  }

  lemma LineSplit(r: Req, s: Bytes) returns (l: Line, rest: Bytes)
    requires Passes(HeaderLineStart, r, s) && s[0] != CR
    ensures PlainLine(l) && s == LineText(l) + rest && (l.Field? || r.headers != [])
  {
    hide Run, Passes, Step, LineText, IsBlank;
    Next(HeaderLineStart, r, s);
    if r.headers != [] && IsBlank(s[0]) {
      var blanks, text;
      blanks, text, rest := FoldedSplit(r, s);
      l := Folded(blanks, text);
    } else {
      var h;
      h, rest := FieldSplit(r, s);
      l := Field(h);
    }
  }

  lemma {:induction false} LinesSplit(r: Req, s: Bytes) returns (lines: seq<Line>, rest: Bytes)
    requires Passes(HeaderLineStart, r, s)
    ensures (forall l | l in lines :: PlainLine(l)) && (lines == [] || lines[0].Field? || r.headers != [])
    ensures s == LinesText(lines) + rest && rest != [] && rest[0] == CR
    decreases |s|
  {
    hide Run, Passes, Step, PlainLine, LineText;
    Next(HeaderLineStart, r, s);
    if s[0] == CR {
      lines, rest := [], s;
    } else {
      var l, more := LineSplit(r, s);
      var r' := r.(headers := AddLine(r.headers, l));
      LineRead(r, l);
      After(HeaderLineStart, r, LineText(l), HeaderLineStart, r', more);
      SomeText(l);
      var ls;
      ls, rest := LinesSplit(r', more);
      lines := [l] + ls;
      assert lines[1..] == ls;
      assert LineText(l) + (LinesText(ls) + rest) == LinesText(lines) + rest;
    }
  }

  lemma SomeText(l: Line)
    ensures LineText(l) != []
  {
  }

  /** The request line and the header lines of an input that gets to the blank line. */
  lemma HeadSplit(s: Bytes) returns (source: Source, rest: Bytes)
    requires Passes(MethodStart, NEW_REQUEST, s)
    ensures PlainHead(source) && s == HeadText(source) + rest && rest != [] && rest[0] == CR
    ensures Passes(HeaderLineStart, HeadRequest(source), rest)
  {
    hide Run, Passes, Step, Leads, IsToken, PlainPath, PlainQuery, Digits, PlainLine, QueryText, LinesText, AddLines, Magnitude;
    var verb, t1 := VerbSplit(NEW_REQUEST, s);
    var r1 := NEW_REQUEST.(verb := verb);
    VerbRead(NEW_REQUEST, verb);
    After(MethodStart, NEW_REQUEST, verb + [SPACE], Uri, r1, t1);
    var path, query, t2 := TargetSplit(r1, t1);
    source := Source(verb, path, query, [], [], [], []);
    TargetRead(r1, source);
    var r2 := r1.(uri := TargetText(source), params := Params(source));
    After(Uri, r1, TargetText(source) + [SPACE], HttpVersionH, r2, t2);
    var major, minor, t3 := VersionSplit(r2, t2);
    source := source.(major := major, minor := minor);
    VersionRead(r2, source);
    var r3 := r2.(major := Magnitude(major, 10, 0), minor := Magnitude(minor, 10, 0));
    After(HttpVersionH, r2, VersionText(source), HeaderLineStart, r3, t3);
    var lines;
    lines, rest := LinesSplit(r3, t3);
    source := source.(lines := lines);
    Regroup(verb + [SPACE], TargetText(source) + [SPACE], VersionText(source), LinesText(lines), rest);
    HeadRead(source);
    After(MethodStart, NEW_REQUEST, HeadText(source), HeaderLineStart, HeadRequest(source), rest);
  }

  // ---------- The end ----------

  /** The bytes are accepted from a state, whatever follows them. */
  predicate Accepts(st: State, r: Req, s: Bytes) {
    Ready(st, r) && Run(st, r, s).result == True
  }

  lemma NextAccepts(st: State, r: Req, s: Bytes)
    requires Accepts(st, r, s)
    ensures s != []
    ensures var (verdict, st', r') := Step(st, r, s[0]);
            verdict == True || (verdict == Indeterminate && Accepts(st', r', s[1..]))
  {
    if s == [] {
      RunNothing(st, r, s);
    } else {
      RunStep(st, r, s);
    }
  }

  lemma AfterAccepts(st: State, r: Req, a: Bytes, st': State, r': Req, b: Bytes)
    requires Leads(st, r, a, st', r') && Accepts(st, r, a + b)
    ensures Accepts(st', r', b)
  {
    RunSplits(st, r, a, b);
  }

  lemma StepInHead(st: State, r: Req, c: Byte)
    requires InHead(st) && Ready(st, r)
    ensures var (verdict, st', _) := Step(st, r, c);
            verdict != True && (verdict == Indeterminate ==> InHead(st') || st' == ExpectingNewline3)
  {
  }

  /** What is accepted gets to the blank line. */
  lemma {:induction false} AcceptsPasses(st: State, r: Req, s: Bytes)
    requires Accepts(st, r, s) && InHead(st)
    ensures Passes(st, r, s)
    decreases |s|
  {
    hide Step, Run, InHead;
    NextAccepts(st, r, s);
    StepInHead(st, r, s[0]);
    var (_, st', r') := Step(st, r, s[0]);
    if InHead(st') { AcceptsPasses(st', r', s[1..]); }
  }

  /** The body is read to its end: the count is its length. */
  lemma {:induction false} CountedSplit(r: Req, s: Bytes)
    requires Accepts(Content, r, s)
    ensures 0 < r.contentLength <= |s|
    decreases |s|
  {
    hide Run;
    NextAccepts(Content, r, s);
    if r.contentLength != 1 {
      CountedSplit(r.(content := r.content + [s[0]], contentLength := r.contentLength - 1), s[1..]);
    }
  }

  lemma BodySplit(r: Req, s: Bytes)
    requires Accepts(ContentStart, r, s) && r.content == []
    ensures 0 < r.contentLength <= |s| && IsTokenChar(s[0])
  {
    hide Run;
    NextAccepts(ContentStart, r, s);
    if r.contentLength != 1 {
      CountedSplit(r.(content := r.content + [s[0]], contentLength := r.contentLength - 1), s[1..]);
    }
  }

  lemma EndSplit(r: Req, s: Bytes) returns (body: Bytes, rest: Bytes)
    requires Accepts(HeaderLineStart, r, s) && s[0] == CR && r.content == []
    ensures s == (CRLF + body) + rest && Ends(r.verb, r.headers, body)
  {
    hide Run, StrToL, ToInt, Lookup;
    NextAccepts(HeaderLineStart, r, s);
    NextAccepts(ExpectingNewline3, r, s[1..]);
    assert s == CRLF + s[2..];
    if r.verb == GET {
      body, rest := [], s[2..];
    } else {
      var r' := r.(contentLength := Announced(r.headers));
      PostEnd(r);
      AfterAccepts(HeaderLineStart, r, CRLF, ContentStart, r', s[2..]);
      BodySplit(r', s[2..]);
      var n := Announced(r.headers);
      body, rest := s[2..][..n], s[2..][n..];
    }
  }

  lemma Regroup(a: Bytes, b: Bytes, c: Bytes, d: Bytes, rest: Bytes)
    ensures a + (b + (c + (d + rest))) == (a + (b + (c + d))) + rest
  {
    assert c + (d + rest) == (c + d) + rest;
    assert b + ((c + d) + rest) == (b + (c + d)) + rest;
  }

  /** Whatever is accepted begins with a text of the language. */
  lemma Recovered(s: Bytes) returns (source: Source, rest: Bytes)
    requires Run(MethodStart, NEW_REQUEST, s).result == True
    ensures Plain(source) && s == Text(source) + rest
  {
    hide Run, Passes, Leads, Ends, PlainHead, HeadText, AddLines, TargetText, Magnitude, Params;
    AcceptsPasses(MethodStart, NEW_REQUEST, s);
    var head, more := HeadSplit(s);
    HeadRead(head);
    AfterAccepts(MethodStart, NEW_REQUEST, HeadText(head), HeaderLineStart, HeadRequest(head), more);
    var body;
    body, rest := EndSplit(HeadRequest(head), more);
    source := head.(body := body);
    HeadAlone(head, body);
  }

  lemma HeadAlone(s: Source, body: Bytes)
    ensures var t := s.(body := body);
            HeadText(t) == HeadText(s) && PlainHead(t) == PlainHead(s) && HeadRequest(t) == HeadRequest(s)
  {
  }

  /**
   The parser accepts exactly the byte strings that begin with a text of the language. The text is all that
   it takes, and the request it rebuilds is what the text stands for.
   */
  lemma Language(s: Bytes)
    ensures var o := Run(MethodStart, NEW_REQUEST, s);
            && (o.result == True <==> exists source :: Plain(source) && Text(source) <= s)
            && forall source | Plain(source) && Text(source) <= s :: o.used == |Text(source)| && o.req == Rebuilt(source)
  {
    hide Run, Plain, Text, Rebuilt;
    if Run(MethodStart, NEW_REQUEST, s).result == True {
      var source, rest := Recovered(s);
      assert Plain(source) && Text(source) <= s;
    }
    forall source | Plain(source) && Text(source) <= s
      ensures var o := Run(MethodStart, NEW_REQUEST, s);
              o.result == True && o.used == |Text(source)| && o.req == Rebuilt(source)
    {
      var rest := s[|Text(source)|..];
      assert s == Text(source) + rest;
      Accepted(source, rest);
    }
  }

  /** The language is prefix-free and has one meaning: no text of it ends inside another, and no text stands for two requests. */
  lemma OneReading(a: Source, b: Source)
    requires Plain(a) && Plain(b) && Text(a) <= Text(b)
    ensures Text(a) == Text(b) && Rebuilt(a) == Rebuilt(b)
  {
    hide Run, Plain, Text, Rebuilt;
    Language(Text(b));
  }
}
