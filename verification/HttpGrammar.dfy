/**
 A grammar of requests, and the proof that the request parser accepts every text of it and rebuilds what
 the text says. That it accepts nothing else is the subject of `HttpLanguage`.
 */
module HttpGrammar {
  import opened ByteStrings
  import opened HttpSyntax
  import opened HttpRequestParser

  // ---------- Syntax ----------

  /** What a query ends in, behind its last ampersand: nothing, a name without an equals sign, or a whole parameter. */
  datatype Tail = Nothing | Bare(name: Bytes) | Full(param: NameValue)

  /** Whole parameters, each with an ampersand behind it, and the tail. */
  datatype Query = Query(front: seq<NameValue>, tail: Tail)

  /** A header, or a line that continues the value of the header before it. */
  datatype Line = Field(field: NameValue) | Folded(blanks: Bytes, text: Bytes)

  datatype Source = Source(
    verb: Bytes,
    path: Bytes,
    query: Option<Query>,
    major: Bytes,
    minor: Bytes,
    lines: seq<Line>,
    body: Bytes)

  predicate IsToken(s: Bytes) {
    s != [] && forall c | c in s :: IsTokenChar(c)
  }

  predicate PathByte(c: Byte) {
    c != QUESTION && c != SPACE && !IsCtl(c)
  }

  predicate PlainPath(s: Bytes) {
    forall c | c in s :: PathByte(c)
  }

  predicate ValueByte(c: Byte) {
    IsTokenChar(c) && c != AMPERSAND
  }

  /** A parameter name may hold ampersands, a parameter value may not. */
  predicate PlainParam(p: NameValue) {
    IsToken(p.name) && forall c | c in p.value :: ValueByte(c)
  }

  predicate PlainTail(t: Tail) {
    match t
    case Nothing => true
    case Bare(name) => IsToken(name)
    case Full(p) => PlainParam(p)
  }

  predicate PlainQuery(q: Query) {
    (forall p | p in q.front :: PlainParam(p)) && PlainTail(q.tail)
  }

  predicate Digits(s: Bytes) {
    s != [] && forall c | c in s :: IsDigit(c)
  }

  predicate TextByte(c: Byte) {
    !IsCtl(c)
  }

  predicate PlainText(s: Bytes) {
    forall c | c in s :: TextByte(c)
  }

  predicate PlainHeader(h: NameValue) {
    IsToken(h.name) && PlainText(h.value)
  }

  predicate IsBlank(c: Byte) {
    c == SPACE || c == TAB
  }

  predicate PlainLine(l: Line) {
    match l
    case Field(h) => PlainHeader(h)
    case Folded(blanks, text) =>
      && blanks != [] && (forall c | c in blanks :: IsBlank(c))
      && PlainText(text) && (text != [] ==> text[0] != SPACE)
  }

  /** The first line, at least, is a header. */
  predicate PlainLines(lines: seq<Line>) {
    (lines != [] ==> lines[0].Field?) && forall l | l in lines :: PlainLine(l)
  }

  /** A GET ends with the blank line, a POST with the body that its headers announce; the body starts with a token byte. */
  predicate Ends(verb: Bytes, headers: seq<NameValue>, body: Bytes) {
    || (verb == GET && body == [])
    || (verb == POST && Announced(headers) == |body| > 0 && IsTokenChar(body[0]))
  }

  function Announced(headers: seq<NameValue>): int {
    var length := Lookup(headers, CONTENT_LENGTH);
    if length == [] then 0 else ToInt(StrToL(length))
  }

  /** The request line and the header lines. */
  predicate PlainHead(s: Source) {
    && IsToken(s.verb) && PlainPath(s.path) && (s.query.Some? ==> PlainQuery(s.query.value))
    && Digits(s.major) && Digits(s.minor) && PlainLines(s.lines)
  }

  predicate Plain(s: Source) {
    PlainHead(s) && Ends(s.verb, AddLines([], s.lines), s.body)
  }

  // ---------- The bytes ----------

  function ParamText(p: NameValue): Bytes {
    p.name + [EQUALS] + p.value
  }

  function FrontText(ps: seq<NameValue>): Bytes {
    if ps == [] then [] else ParamText(ps[0]) + [AMPERSAND] + FrontText(ps[1..])
  }

  function TailText(t: Tail): Bytes {
    match t
    case Nothing => []
    case Bare(name) => name
    case Full(p) => ParamText(p)
  }

  function QueryText(q: Query): Bytes {
    FrontText(q.front) + TailText(q.tail)
  }

  function TargetText(s: Source): Bytes {
    s.path + match s.query { case None => [] case Some(q) => [QUESTION] + QueryText(q) }
  }

  const HTTP_SLASH: Bytes := ['H' as int, 'T' as int, 'T' as int, 'P' as int, SLASH]

  function VersionText(s: Source): Bytes {
    HTTP_SLASH + (s.major + ([DOT] + (s.minor + CRLF)))
  }

  function LineText(l: Line): Bytes {
    match l
    case Field(h) => h.name + ([COLON, SPACE] + (h.value + CRLF))
    case Folded(blanks, text) => blanks + (text + CRLF)
  }

  function LinesText(lines: seq<Line>): Bytes {
    if lines == [] then [] else LineText(lines[0]) + LinesText(lines[1..])
  }

  function HeadText(s: Source): Bytes {
    (s.verb + [SPACE]) + ((TargetText(s) + [SPACE]) + (VersionText(s) + LinesText(s.lines)))
  }

  function Text(s: Source): Bytes {
    HeadText(s) + (CRLF + s.body)
  }

  // ---------- The meaning ----------

  function TailParams(t: Tail): seq<NameValue> {
    match t
    case Nothing => []
    case Bare(name) => [NameValue(name, [])]
    case Full(p) => [p]
  }

  function Params(s: Source): seq<NameValue> {
    match s.query
    case None => []
    case Some(q) => q.front + TailParams(q.tail)
  }

  /** A line adds a header, or adds its text, without the blanks, to the value of the last header. */
  function AddLine(headers: seq<NameValue>, l: Line): seq<NameValue> {
    match l
    case Field(h) => headers + [h]
    case Folded(_, text) =>
      var n := |headers| - 1;
      if headers == [] then [] else headers[n := headers[n].(value := headers[n].value + text)]
  }

  function AddLines(headers: seq<NameValue>, lines: seq<Line>): seq<NameValue>
    decreases |lines|
  {
    if lines == [] then headers else AddLines(AddLine(headers, lines[0]), lines[1..])
  }

  /** What the request line and the header lines say. */
  function HeadRequest(s: Source): Req {
    Req(s.verb, TargetText(s), Magnitude(s.major, 10, 0), Magnitude(s.minor, 10, 0), AddLines([], s.lines), [], 0, Params(s))
  }

  /** The request that the bytes stand for. */
  function Rebuilt(s: Source): Req {
    HeadRequest(s).(content := s.body, contentLength := |s.body|)
  }

  // ---------- Runs without a verdict ----------

  /** The bytes lead from one state and request to another. */
  predicate Leads(st: State, r: Req, s: Bytes, st': State, r': Req) {
    Ready(st, r) && Run(st, r, s) == Outcome(Indeterminate, st', r', |s|)
  }

  lemma LeadsOn(st: State, r: Req, s: Bytes, st': State, r': Req, t: Bytes, st'': State, r'': Req)
    requires Leads(st, r, s, st', r') && Leads(st', r', t, st'', r'')
    ensures Leads(st, r, s + t, st'', r'')
  {
    RunSplits(st, r, s, t);
  }

  lemma LeadsByte(st: State, r: Req, c: Byte)
    requires Ready(st, r) && Step(st, r, c).0.Indeterminate?
    ensures var (_, st', r') := Step(st, r, c); Leads(st, r, [c], st', r')
  {
    var (_, st', r') := Step(st, r, c);
    assert [c][1..] == [];
    RunNothing(st', r', []);
  }

  lemma LeadsNothing(st: State, r: Req)
    requires Ready(st, r)
    ensures Leads(st, r, [], st, r)
  {
  }

  lemma LeadsThenVerdict(st: State, r: Req, s: Bytes, st': State, r': Req, t: Bytes)
    requires Leads(st, r, s, st', r') && Ready(st', r')
    ensures Run(st, r, s + t) == Later(Run(st', r', t), |s|)
  {
    RunSplits(st, r, s, t);
  }

  /** Any trailing bytes stay untouched by a verdict. */
  lemma VerdictExtends(st: State, r: Req, s: Bytes, t: Bytes)
    requires Ready(st, r) && !Run(st, r, s).result.Indeterminate?
    ensures Run(st, r, s + t) == Run(st, r, s)
  {
    RunSplits(st, r, s, t);
  }

  // ---------- The request line ----------

  lemma {:induction false} VerbLoop(r: Req, s: Bytes)
    requires forall c | c in s :: IsTokenChar(c)
    ensures Leads(Method, r, s, Method, r.(verb := r.verb + s))
    decreases |s|
  {
    if s == [] {
      assert r.verb + [] == r.verb;
    } else {
      var r' := r.(verb := r.verb + [s[0]]);
      LeadsByte(Method, r, s[0]);
      VerbLoop(r', s[1..]);
      assert r.verb + s == r'.verb + s[1..];
      assert s == [s[0]] + s[1..];
      LeadsOn(Method, r, [s[0]], Method, r', s[1..], Method, r.(verb := r.verb + s));
    }
  }

  lemma VerbRead(r: Req, verb: Bytes)
    requires r.verb == [] && IsToken(verb)
    ensures Leads(MethodStart, r, verb, Method, r.(verb := verb))
    ensures Leads(MethodStart, r, verb + [SPACE], Uri, r.(verb := verb))
  {
    var r1, r2 := r.(verb := [verb[0]]), r.(verb := verb);
    assert r.verb + [verb[0]] == [verb[0]];
    LeadsByte(MethodStart, r, verb[0]);
    VerbLoop(r1, verb[1..]);
    assert [verb[0]] + verb[1..] == verb;
    LeadsOn(MethodStart, r, [verb[0]], Method, r1, verb[1..], Method, r2);
    LeadsByte(Method, r2, SPACE);
    LeadsOn(MethodStart, r, verb, Method, r2, [SPACE], Uri, r2);
  }

  lemma {:induction false} PathRead(r: Req, s: Bytes)
    requires PlainPath(s)
    ensures Leads(Uri, r, s, Uri, r.(uri := r.uri + s))
    decreases |s|
  {
    if s == [] {
      assert r.uri + [] == r.uri;
    } else {
      var r' := r.(uri := r.uri + [s[0]]);
      assert s[0] in s;
      LeadsByte(Uri, r, s[0]);
      PathRead(r', s[1..]);
      assert r.uri + s == r'.uri + s[1..];
      assert s == [s[0]] + s[1..];
      LeadsOn(Uri, r, [s[0]], Uri, r', s[1..], Uri, r.(uri := r.uri + s));
    }
  }

  /** The request once the bytes of a name have been added to the last parameter. */
  function NameAdded(r: Req, s: Bytes): Req
    requires r.params != []
  {
    var n := |r.params| - 1;
    r.(uri := r.uri + s, params := r.params[n := r.params[n].(name := r.params[n].name + s)])
  }

  function ValueAdded(r: Req, s: Bytes): Req
    requires r.params != []
  {
    var n := |r.params| - 1;
    r.(uri := r.uri + s, params := r.params[n := r.params[n].(value := r.params[n].value + s)])
  }

  lemma ParamNameByte(r: Req, c: Byte)
    requires r.params != [] && IsTokenChar(c)
    ensures Leads(ParamName, r, [c], ParamName, NameAdded(r, [c]))
  {
    LeadsByte(ParamName, r, c);
  }

  lemma ParamNameJoins(r: Req, a: Bytes, b: Bytes)
    requires r.params != []
    ensures NameAdded(r, []) == r && NameAdded(NameAdded(r, a), b) == NameAdded(r, a + b)
  {
    var n := |r.params| - 1;
    assert r.uri + [] == r.uri && r.params[n].name + [] == r.params[n].name;
    assert r.uri + a + b == r.uri + (a + b) && r.params[n].name + a + b == r.params[n].name + (a + b);
  }

  lemma SameNameCount(r: Req, s: Bytes)
    requires r.params != []
    ensures |NameAdded(r, s).params| == |r.params|
  {
  }

  lemma {:induction false} ParamNameLoop(r: Req, s: Bytes)
    requires r.params != [] && forall c | c in s :: IsTokenChar(c)
    ensures Leads(ParamName, r, s, ParamName, NameAdded(r, s))
    decreases |s|
  {
    hide Leads, NameAdded, IsTokenChar;
    if s == [] {
      ParamNameJoins(r, [], []);
      LeadsNothing(ParamName, r);
    } else {
      var r' := NameAdded(r, [s[0]]);
      ParamNameByte(r, s[0]);
      ParamNameJoins(r, [s[0]], s[1..]);
      assert s == [s[0]] + s[1..];
      SameNameCount(r, [s[0]]);
      ParamNameLoop(r', s[1..]);
      LeadsOn(ParamName, r, [s[0]], ParamName, r', s[1..], ParamName, NameAdded(r, s));
    }
  }

  lemma ParamValueByte(r: Req, c: Byte)
    requires r.params != [] && ValueByte(c)
    ensures Leads(ParamValue, r, [c], ParamValue, ValueAdded(r, [c]))
  {
    LeadsByte(ParamValue, r, c);
  }

  lemma ParamValueJoins(r: Req, a: Bytes, b: Bytes)
    requires r.params != []
    ensures ValueAdded(r, []) == r && ValueAdded(ValueAdded(r, a), b) == ValueAdded(r, a + b)
  {
    var n := |r.params| - 1;
    assert r.uri + [] == r.uri && r.params[n].value + [] == r.params[n].value;
    assert r.uri + a + b == r.uri + (a + b) && r.params[n].value + a + b == r.params[n].value + (a + b);
  }

  lemma SameValueCount(r: Req, s: Bytes)
    requires r.params != []
    ensures |ValueAdded(r, s).params| == |r.params|
  {
  }

  lemma {:induction false} ParamValueLoop(r: Req, s: Bytes)
    requires r.params != [] && forall c | c in s :: ValueByte(c)
    ensures Leads(ParamValue, r, s, ParamValue, ValueAdded(r, s))
    decreases |s|
  {
    hide Leads, ValueAdded, ValueByte;
    if s == [] {
      ParamValueJoins(r, [], []);
      LeadsNothing(ParamValue, r);
    } else {
      var r' := ValueAdded(r, [s[0]]);
      ParamValueByte(r, s[0]);
      ParamValueJoins(r, [s[0]], s[1..]);
      assert s == [s[0]] + s[1..];
      SameValueCount(r, [s[0]]);
      ParamValueLoop(r', s[1..]);
      LeadsOn(ParamValue, r, [s[0]], ParamValue, r', s[1..], ParamValue, ValueAdded(r, s));
    }
  }

  lemma ParamNameRead(r: Req, name: Bytes)
    requires IsToken(name)
    ensures Leads(ParamNameStart, r, name, ParamName, r.(uri := r.uri + name, params := r.params + [NameValue(name, [])]))
  {
    var n, c := |r.params|, name[0];
    var r1 := r.(uri := r.uri + [c], params := r.params + [NameValue([c], [])]);
    var r2 := r.(uri := r.uri + name, params := r.params + [NameValue(name, [])]);
    LeadsByte(ParamNameStart, r, c);
    hide Leads;
    ParamNameLoop(r1, name[1..]);
    assert name == [c] + name[1..];
    assert r1.uri + name[1..] == r.uri + name;
    assert NameAdded(r1, name[1..]) == r2;
    LeadsOn(ParamNameStart, r, [c], ParamName, r1, name[1..], ParamName, r2);
  }

  lemma EqualsRead(r: Req)
    requires r.params != []
    ensures Leads(ParamName, r, [EQUALS], ParamValue, r.(uri := r.uri + [EQUALS]))
  {
    LeadsByte(ParamName, r, EQUALS);
  }

  /** One parameter, with its equals sign. */
  lemma ParamRead(r: Req, p: NameValue)
    requires PlainParam(p)
    ensures Leads(ParamNameStart, r, ParamText(p), ParamValue, r.(uri := r.uri + ParamText(p), params := r.params + [p]))
  {
    hide Leads;
    var s := ParamText(p);
    var r2 := r.(uri := r.uri + p.name, params := r.params + [NameValue(p.name, [])]);
    var r3 := r2.(uri := r2.uri + [EQUALS]);
    var r4 := r.(uri := r.uri + s, params := r.params + [p]);
    ParamNameRead(r, p.name);
    EqualsRead(r2);
    ParamValueLoop(r3, p.value);
    LeadsOn(ParamNameStart, r, p.name, ParamName, r2, [EQUALS], ParamValue, r3);
    assert r3.uri + p.value == r.uri + s;
    assert [] + p.value == p.value;
    assert ValueAdded(r3, p.value) == r4;
    LeadsOn(ParamNameStart, r, p.name + [EQUALS], ParamValue, r3, p.value, ParamValue, r4);
  }

  lemma AmpersandRead(r: Req)
    requires r.params != []
    ensures Leads(ParamValue, r, [AMPERSAND], ParamNameStart, r.(uri := r.uri + [AMPERSAND]))
  {
    LeadsByte(ParamValue, r, AMPERSAND);
  }

  lemma {:induction false} FrontRead(r: Req, ps: seq<NameValue>)
    requires forall p | p in ps :: PlainParam(p)
    ensures Leads(ParamNameStart, r, FrontText(ps), ParamNameStart, r.(uri := r.uri + FrontText(ps), params := r.params + ps))
    decreases |ps|
  {
    hide Leads, PlainParam, ParamText;
    if ps == [] {
      assert r.uri + [] == r.uri && r.params + [] == r.params;
      LeadsNothing(ParamNameStart, r);
    } else {
      var s, rest := ParamText(ps[0]), FrontText(ps[1..]);
      var r1 := r.(uri := r.uri + s, params := r.params + [ps[0]]);
      var r2 := r1.(uri := r1.uri + [AMPERSAND]);
      ParamRead(r, ps[0]);
      AmpersandRead(r1);
      LeadsOn(ParamNameStart, r, s, ParamValue, r1, [AMPERSAND], ParamNameStart, r2);
      FrontRead(r2, ps[1..]);
      assert r2.uri + rest == r.uri + (s + [AMPERSAND] + rest);
      assert r2.params + ps[1..] == r.params + ps;
      LeadsOn(ParamNameStart, r, s + [AMPERSAND], ParamNameStart, r2, rest, ParamNameStart,
              r.(uri := r.uri + FrontText(ps), params := r.params + ps));
    }
  }

  lemma SpaceEndsTarget(st: State, r: Req)
    requires st in {Uri, ParamNameStart, ParamName, ParamValue} && Ready(st, r)
    ensures Leads(st, r, [SPACE], HttpVersionH, r)
  {
    LeadsByte(st, r, SPACE);
  }

  lemma TailRead(r: Req, t: Tail)
    requires PlainTail(t)
    ensures Leads(ParamNameStart, r, TailText(t) + [SPACE], HttpVersionH,
                  r.(uri := r.uri + TailText(t), params := r.params + TailParams(t)))
  {
    hide Leads, PlainParam, ParamText;
    var r' := r.(uri := r.uri + TailText(t), params := r.params + TailParams(t));
    match t
    case Nothing =>
      assert TailText(t) + [SPACE] == [SPACE] && r.uri + [] == r.uri && r.params + [] == r.params;
      SpaceEndsTarget(ParamNameStart, r);
    case Bare(name) =>
      ParamNameRead(r, name);
      SpaceEndsTarget(ParamName, r');
      LeadsOn(ParamNameStart, r, name, ParamName, r', [SPACE], HttpVersionH, r');
    case Full(p) =>
      ParamRead(r, p);
      SpaceEndsTarget(ParamValue, r');
      LeadsOn(ParamNameStart, r, ParamText(p), ParamValue, r', [SPACE], HttpVersionH, r');
  }

  lemma QueryRead(r: Req, q: Query)
    requires PlainQuery(q)
    ensures Leads(ParamNameStart, r, QueryText(q) + [SPACE], HttpVersionH,
                  r.(uri := r.uri + QueryText(q), params := r.params + (q.front + TailParams(q.tail))))
  {
    hide Leads, PlainParam, PlainTail, FrontText, TailText, TailParams;
    var r1 := r.(uri := r.uri + FrontText(q.front), params := r.params + q.front);
    var r2 := r.(uri := r.uri + QueryText(q), params := r.params + (q.front + TailParams(q.tail)));
    FrontRead(r, q.front);
    TailRead(r1, q.tail);
    assert r1.uri + TailText(q.tail) == r2.uri && r1.params + TailParams(q.tail) == r2.params;
    LeadsOn(ParamNameStart, r, FrontText(q.front), ParamNameStart, r1, TailText(q.tail) + [SPACE], HttpVersionH, r2);
    assert FrontText(q.front) + (TailText(q.tail) + [SPACE]) == QueryText(q) + [SPACE];
  }

  lemma QuestionRead(r: Req)
    ensures Leads(Uri, r, [QUESTION], ParamNameStart, r.(uri := r.uri + [QUESTION]))
  {
    LeadsByte(Uri, r, QUESTION);
  }

  lemma TargetRead(r: Req, s: Source)
    requires PlainPath(s.path) && (s.query.Some? ==> PlainQuery(s.query.value)) && r.uri == [] && r.params == []
    ensures Leads(Uri, r, TargetText(s) + [SPACE], HttpVersionH, r.(uri := TargetText(s), params := Params(s)))
  {
    hide Leads, PlainQuery, PlainPath, QueryText, TailParams;
    var r1 := r.(uri := s.path);
    PathRead(r, s.path);
    assert r.uri + s.path == s.path;
    match s.query
    case None =>
      assert TargetText(s) == s.path;
      SpaceEndsTarget(Uri, r1);
      LeadsOn(Uri, r, s.path, Uri, r1, [SPACE], HttpVersionH, r1);
    case Some(q) =>
      var r2 := r1.(uri := s.path + [QUESTION]);
      var r3 := r.(uri := TargetText(s), params := Params(s));
      QuestionRead(r1);
      LeadsOn(Uri, r, s.path, Uri, r1, [QUESTION], ParamNameStart, r2);
      QueryRead(r2, q);
      assert r2.uri + QueryText(q) == TargetText(s) && r2.params + Params(s) == Params(s);
      LeadsOn(Uri, r, s.path + [QUESTION], ParamNameStart, r2, QueryText(q) + [SPACE], HttpVersionH, r3);
      assert s.path + [QUESTION] + (QueryText(q) + [SPACE]) == TargetText(s) + [SPACE];
  }

  // ---------- The version ----------

  lemma HttpSlashRead(r: Req)
    ensures Leads(HttpVersionH, r, HTTP_SLASH, HttpVersionMajorStart, r.(major := 0, minor := 0))
  {
    LeadsByte(HttpVersionH, r, 'H' as int);
    LeadsByte(HttpVersionT1, r, 'T' as int);
    LeadsByte(HttpVersionT2, r, 'T' as int);
    LeadsByte(HttpVersionP, r, 'P' as int);
    LeadsByte(HttpVersionSlash, r, SLASH);
    var r0 := r.(major := 0, minor := 0);
    hide Leads;
    LeadsOn(HttpVersionH, r, ['H' as int], HttpVersionT1, r, ['T' as int], HttpVersionT2, r);
    LeadsOn(HttpVersionH, r, ['H' as int] + ['T' as int], HttpVersionT2, r, ['T' as int], HttpVersionP, r);
    LeadsOn(HttpVersionH, r, ['H' as int] + ['T' as int] + ['T' as int], HttpVersionP, r, ['P' as int], HttpVersionSlash, r);
    LeadsOn(HttpVersionH, r, ['H' as int] + ['T' as int] + ['T' as int] + ['P' as int], HttpVersionSlash, r, [SLASH],
            HttpVersionMajorStart, r0);
    assert HTTP_SLASH == ['H' as int] + ['T' as int] + ['T' as int] + ['P' as int] + [SLASH];
  }

  lemma {:induction false} MajorLoop(r: Req, s: Bytes, v: nat)
    requires (forall c | c in s :: IsDigit(c)) && r.major == v
    ensures Leads(HttpVersionMajor, r, s, HttpVersionMajor, r.(major := Magnitude(s, 10, v)))
    decreases |s|
  {
    if s != [] {
      var v' := v * 10 + (s[0] - ZERO);
      LeadsByte(HttpVersionMajor, r, s[0]);
      MajorLoop(r.(major := v'), s[1..], v');
      hide Leads;
      assert s == [s[0]] + s[1..];
      LeadsOn(HttpVersionMajor, r, [s[0]], HttpVersionMajor, r.(major := v'), s[1..], HttpVersionMajor, r.(major := Magnitude(s, 10, v)));
    }
  }

  lemma MajorRead(r: Req, s: Bytes)
    requires Digits(s) && r.major == 0
    ensures Leads(HttpVersionMajorStart, r, s, HttpVersionMajor, r.(major := Magnitude(s, 10, 0)))
  {
    var v := s[0] - ZERO;
    assert s[0] in s;
    LeadsByte(HttpVersionMajorStart, r, s[0]);
    MajorLoop(r.(major := v), s[1..], v);
    assert s == [s[0]] + s[1..];
    LeadsOn(HttpVersionMajorStart, r, [s[0]], HttpVersionMajor, r.(major := v), s[1..], HttpVersionMajor, r.(major := Magnitude(s, 10, 0)));
  }

  lemma {:induction false} MinorLoop(r: Req, s: Bytes, v: nat)
    requires (forall c | c in s :: IsDigit(c)) && r.minor == v
    ensures Leads(HttpVersionMinor, r, s, HttpVersionMinor, r.(minor := Magnitude(s, 10, v)))
    decreases |s|
  {
    if s != [] {
      var v' := v * 10 + (s[0] - ZERO);
      LeadsByte(HttpVersionMinor, r, s[0]);
      MinorLoop(r.(minor := v'), s[1..], v');
      hide Leads;
      assert s == [s[0]] + s[1..];
      LeadsOn(HttpVersionMinor, r, [s[0]], HttpVersionMinor, r.(minor := v'), s[1..], HttpVersionMinor, r.(minor := Magnitude(s, 10, v)));
    }
  }

  lemma MinorRead(r: Req, s: Bytes)
    requires Digits(s) && r.minor == 0
    ensures Leads(HttpVersionMinorStart, r, s, HttpVersionMinor, r.(minor := Magnitude(s, 10, 0)))
  {
    var v := s[0] - ZERO;
    assert s[0] in s;
    LeadsByte(HttpVersionMinorStart, r, s[0]);
    MinorLoop(r.(minor := v), s[1..], v);
    assert s == [s[0]] + s[1..];
    LeadsOn(HttpVersionMinorStart, r, [s[0]], HttpVersionMinor, r.(minor := v), s[1..], HttpVersionMinor, r.(minor := Magnitude(s, 10, 0)));
  }

  lemma LineEnd(st: State, mid: State, r: Req)
    requires (st == HttpVersionMinor && mid == ExpectingNewline1) || (st in {HeaderLws, HeaderValue} && mid == ExpectingNewline2)
    requires Ready(st, r)
    ensures Leads(st, r, CRLF, HeaderLineStart, r)
  {
    LeadsByte(st, r, CR);
    LeadsByte(mid, r, LF);
    LeadsOn(st, r, [CR], mid, r, [LF], HeaderLineStart, r);
    assert [CR] + [LF] == CRLF;
  }

  lemma DotRead(r: Req)
    ensures Leads(HttpVersionMajor, r, [DOT], HttpVersionMinorStart, r)
  {
    LeadsByte(HttpVersionMajor, r, DOT);
  }

  lemma VersionRead(r: Req, s: Source)
    requires Digits(s.major) && Digits(s.minor)
    ensures Leads(HttpVersionH, r, VersionText(s), HeaderLineStart,
                  r.(major := Magnitude(s.major, 10, 0), minor := Magnitude(s.minor, 10, 0)))
  {
    hide Leads, Digits, Magnitude;
    var r0 := r.(major := 0, minor := 0);
    var r1 := r0.(major := Magnitude(s.major, 10, 0));
    var r2 := r1.(minor := Magnitude(s.minor, 10, 0));
    HttpSlashRead(r);
    MajorRead(r0, s.major);
    DotRead(r1);
    MinorRead(r1, s.minor);
    LineEnd(HttpVersionMinor, ExpectingNewline1, r2);
    var s3 := s.minor + CRLF;
    LeadsOn(HttpVersionMinorStart, r1, s.minor, HttpVersionMinor, r2, CRLF, HeaderLineStart, r2);
    LeadsOn(HttpVersionMajor, r1, [DOT], HttpVersionMinorStart, r1, s3, HeaderLineStart, r2);
    LeadsOn(HttpVersionMajorStart, r0, s.major, HttpVersionMajor, r1, [DOT] + s3, HeaderLineStart, r2);
    LeadsOn(HttpVersionH, r, HTTP_SLASH, HttpVersionMajorStart, r0, s.major + ([DOT] + s3), HeaderLineStart, r2);
  }

  // ---------- The header lines ----------

  /** The request once bytes have been added to the name and the value of the last header. */
  function HeaderAdded(r: Req, name: Bytes, value: Bytes): Req
    requires r.headers != []
  {
    var n := |r.headers| - 1;
    r.(headers := r.headers[n := NameValue(r.headers[n].name + name, r.headers[n].value + value)])
  }

  lemma HeaderNameByte(r: Req, c: Byte)
    requires r.headers != [] && IsTokenChar(c)
    ensures Leads(HeaderName, r, [c], HeaderName, HeaderAdded(r, [c], []))
  {
    var n := |r.headers| - 1;
    assert r.headers[n].name + [] == r.headers[n].name && r.headers[n].value + [] == r.headers[n].value;
    LeadsByte(HeaderName, r, c);
  }

  lemma {:induction false} HeaderNameLoop(r: Req, s: Bytes)
    requires r.headers != [] && forall c | c in s :: IsTokenChar(c)
    ensures Leads(HeaderName, r, s, HeaderName, HeaderAdded(r, s, []))
    decreases |s|
  {
    var n := |r.headers| - 1;
    assert r.headers[n].name + [] == r.headers[n].name && r.headers[n].value + [] == r.headers[n].value;
    if s == [] {
      assert HeaderAdded(r, [], []) == r;
    } else {
      var r' := HeaderAdded(r, [s[0]], []);
      hide Leads;
      HeaderNameByte(r, s[0]);
      HeaderNameLoop(r', s[1..]);
      assert s == [s[0]] + s[1..];
      assert r.headers[n].name + s == r'.headers[n].name + s[1..];
      assert HeaderAdded(r', s[1..], []) == HeaderAdded(r, s, []);
      LeadsOn(HeaderName, r, [s[0]], HeaderName, r', s[1..], HeaderName, HeaderAdded(r, s, []));
    }
  }

  lemma HeaderValueByte(r: Req, c: Byte)
    requires r.headers != [] && !IsCtl(c)
    ensures Leads(HeaderValue, r, [c], HeaderValue, HeaderAdded(r, [], [c]))
  {
    var n := |r.headers| - 1;
    assert r.headers[n].name + [] == r.headers[n].name && r.headers[n].value + [] == r.headers[n].value;
    LeadsByte(HeaderValue, r, c);
  }

  lemma {:induction false} HeaderValueLoop(r: Req, s: Bytes)
    requires r.headers != [] && PlainText(s)
    ensures Leads(HeaderValue, r, s, HeaderValue, HeaderAdded(r, [], s))
    decreases |s|
  {
    var n := |r.headers| - 1;
    assert r.headers[n].name + [] == r.headers[n].name && r.headers[n].value + [] == r.headers[n].value;
    if s == [] {
      assert HeaderAdded(r, [], []) == r;
    } else {
      var r' := HeaderAdded(r, [], [s[0]]);
      hide Leads;
      assert s[0] in s;
      HeaderValueByte(r, s[0]);
      HeaderValueLoop(r', s[1..]);
      assert s == [s[0]] + s[1..];
      assert r.headers[n].value + s == r'.headers[n].value + s[1..];
      assert HeaderAdded(r', [], s[1..]) == HeaderAdded(r, [], s);
      LeadsOn(HeaderValue, r, [s[0]], HeaderValue, r', s[1..], HeaderValue, HeaderAdded(r, [], s));
    }
  }

  lemma ColonSpace(r: Req)
    requires r.headers != []
    ensures Leads(HeaderName, r, [COLON, SPACE], HeaderValue, r)
  {
    LeadsByte(HeaderName, r, COLON);
    LeadsByte(SpaceBeforeHeaderValue, r, SPACE);
    LeadsOn(HeaderName, r, [COLON], SpaceBeforeHeaderValue, r, [SPACE], HeaderValue, r);
    assert [COLON] + [SPACE] == [COLON, SPACE];
  }

  lemma FieldNameRead(r: Req, name: Bytes)
    requires IsToken(name)
    ensures Leads(HeaderLineStart, r, name, HeaderName, r.(headers := r.headers + [NameValue(name, [])]))
  {
    var c := name[0];
    var r1 := r.(headers := r.headers + [NameValue([c], [])]);
    var r2 := r.(headers := r.headers + [NameValue(name, [])]);
    LeadsByte(HeaderLineStart, r, c);
    HeaderNameLoop(r1, name[1..]);
    assert name == [c] + name[1..];
    var none: Bytes := [];
    assert none + none == none;
    assert HeaderAdded(r1, name[1..], []).headers == r2.headers;
    LeadsOn(HeaderLineStart, r, [c], HeaderName, r1, name[1..], HeaderName, r2);
  }

  lemma HeaderRead(r: Req, h: NameValue)
    requires PlainHeader(h)
    ensures Leads(HeaderLineStart, r, LineText(Field(h)), HeaderLineStart, r.(headers := r.headers + [h]))
  {
    hide Leads;
    var r2 := r.(headers := r.headers + [NameValue(h.name, [])]);
    var r3 := r.(headers := r.headers + [h]);
    FieldNameRead(r, h.name);
    HeaderValueLoop(r2, h.value);
    assert [] + h.value == h.value && h.name + [] == h.name;
    assert HeaderAdded(r2, [], h.value).headers == r3.headers;
    ColonSpace(r2);
    LineEnd(HeaderValue, ExpectingNewline2, r3);
    LeadsOn(HeaderValue, r2, h.value, HeaderValue, r3, CRLF, HeaderLineStart, r3);
    LeadsOn(HeaderName, r2, [COLON, SPACE], HeaderValue, r2, h.value + CRLF, HeaderLineStart, r3);
    LeadsOn(HeaderLineStart, r, h.name, HeaderName, r2, [COLON, SPACE] + (h.value + CRLF), HeaderLineStart, r3);
  }

  lemma {:induction false} BlanksRead(r: Req, s: Bytes)
    requires r.headers != [] && forall c | c in s :: IsBlank(c)
    ensures Leads(HeaderLws, r, s, HeaderLws, r)
    decreases |s|
  {
    if s != [] {
      assert s[0] in s;
      LeadsByte(HeaderLws, r, s[0]);
      BlanksRead(r, s[1..]);
      assert s == [s[0]] + s[1..];
      LeadsOn(HeaderLws, r, [s[0]], HeaderLws, r, s[1..], HeaderLws, r);
    }
  }

  lemma BlanksBegin(r: Req, s: Bytes)
    requires r.headers != [] && s != [] && forall c | c in s :: IsBlank(c)
    ensures Leads(HeaderLineStart, r, s, HeaderLws, r)
  {
    assert s[0] in s;
    LeadsByte(HeaderLineStart, r, s[0]);
    BlanksRead(r, s[1..]);
    assert s == [s[0]] + s[1..];
    LeadsOn(HeaderLineStart, r, [s[0]], HeaderLws, r, s[1..], HeaderLws, r);
  }

  /** The text behind the blanks, up to the end of the line. */
  lemma FoldTextRead(r: Req, s: Bytes)
    requires r.headers != [] && PlainText(s) && s != [] && s[0] != SPACE
    ensures Leads(HeaderLws, r, s, HeaderValue, HeaderAdded(r, [], s))
  {
    var n, r1 := |r.headers| - 1, HeaderAdded(r, [], [s[0]]);
    assert r.headers[n].name + [] == r.headers[n].name;
    assert s[0] in s;
    LeadsByte(HeaderLws, r, s[0]);
    hide Leads;
    HeaderValueLoop(r1, s[1..]);
    assert s == [s[0]] + s[1..];
    assert r1.headers[n].value + s[1..] == r.headers[n].value + s;
    assert HeaderAdded(r1, [], s[1..]) == HeaderAdded(r, [], s);
    LeadsOn(HeaderLws, r, [s[0]], HeaderValue, r1, s[1..], HeaderValue, HeaderAdded(r, [], s));
  }

  lemma FoldedRead(r: Req, blanks: Bytes, text: Bytes)
    requires r.headers != [] && PlainLine(Folded(blanks, text))
    ensures Leads(HeaderLineStart, r, LineText(Folded(blanks, text)), HeaderLineStart, HeaderAdded(r, [], text))
  {
    hide Leads, PlainText;
    var r1 := HeaderAdded(r, [], text);
    BlanksBegin(r, blanks);
    if text == [] {
      var n := |r.headers| - 1;
      assert r.headers[n].name + [] == r.headers[n].name && r.headers[n].value + [] == r.headers[n].value;
      assert r1 == r && text + CRLF == CRLF;
      LineEnd(HeaderLws, ExpectingNewline2, r);
    } else {
      FoldTextRead(r, text);
      LineEnd(HeaderValue, ExpectingNewline2, r1);
      LeadsOn(HeaderLws, r, text, HeaderValue, r1, CRLF, HeaderLineStart, r1);
    }
    LeadsOn(HeaderLineStart, r, blanks, HeaderLws, r, text + CRLF, HeaderLineStart, r1);
  }

  lemma LineRead(r: Req, l: Line)
    requires PlainLine(l) && (l.Field? || r.headers != [])
    ensures Leads(HeaderLineStart, r, LineText(l), HeaderLineStart, r.(headers := AddLine(r.headers, l)))
  {
    hide Leads, LineText, PlainHeader;
    match l
    case Field(h) => HeaderRead(r, h);
    case Folded(blanks, text) =>
      FoldedRead(r, blanks, text);
      assert r.headers[|r.headers| - 1].name + [] == r.headers[|r.headers| - 1].name;
  }

  lemma {:induction false} LinesRead(r: Req, lines: seq<Line>)
    requires (forall l | l in lines :: PlainLine(l)) && (lines == [] || lines[0].Field? || r.headers != [])
    ensures Leads(HeaderLineStart, r, LinesText(lines), HeaderLineStart, r.(headers := AddLines(r.headers, lines)))
    decreases |lines|
  {
    hide Leads, PlainLine, LineText;
    if lines == [] {
      LeadsNothing(HeaderLineStart, r);
    } else {
      var r1 := r.(headers := AddLine(r.headers, lines[0]));
      LineRead(r, lines[0]);
      LinesRead(r1, lines[1..]);
      LeadsOn(HeaderLineStart, r, LineText(lines[0]), HeaderLineStart, r1, LinesText(lines[1..]), HeaderLineStart,
              r.(headers := AddLines(r.headers, lines)));
    }
  }

  // ---------- The body ----------

  lemma {:induction false} LookupHas(nvs: seq<NameValue>, name: Bytes)
    requires Lookup(nvs, name) != []
    ensures Has(nvs, name) && WithHeader(nvs, name) == nvs
  {
    if nvs[0].name != name {
      LookupHas(nvs[1..], name);
      var i :| 0 <= i < |nvs[1..]| && nvs[1..][i].name == name;
      assert nvs[i + 1].name == name;
    }
  }

  /** The request after all of the body but `missing` bytes: the count and the content add up to the announced length. */
  function BodyTaken(r: Req, body: Bytes, missing: nat): Req
    requires missing <= |body|
  {
    r.(content := body[..|body| - missing], contentLength := missing)
  }

  /** The headers announce a body of `n` bytes. */
  predicate Announces(headers: seq<NameValue>, n: int) {
    WithHeader(headers, CONTENT_LENGTH) == headers && ToInt(StrToL(Lookup(headers, CONTENT_LENGTH))) == n
  }

  /** One byte of the body. */
  lemma CountedByte(st: State, r: Req, body: Bytes, missing: nat)
    requires 0 < missing <= |body| && Announces(r.headers, |body|)
    ensures WithContent(st, BodyTaken(r, body, missing), body[|body| - missing]) ==
            if missing == 1 then (True, st, r.(content := body, contentLength := |body|))
            else (Indeterminate, Content, BodyTaken(r, body, missing - 1))
  {
    hide StrToL, ToInt, Lookup, WithHeader;
    var k := |body| - missing;
    assert body[..k] + [body[k]] == body[..k + 1];
    if missing == 1 {
      assert body[..k + 1] == body;
    }
  }

  lemma ContentByte(st: State, r: Req, body: Bytes, missing: nat)
    requires 0 < missing <= |body| && Announces(r.headers, |body|)
    requires st == Content || (st == ContentStart && missing == |body| && IsTokenChar(body[0]))
    ensures Step(st, BodyTaken(r, body, missing), body[|body| - missing]) ==
            if missing == 1 then (True, st, r.(content := body, contentLength := |body|))
            else (Indeterminate, Content, BodyTaken(r, body, missing - 1))
  {
    hide WithContent, Announces, StepTarget, StepVersion, StepHeader;
    CountedByte(st, r, body, missing);
  }

  lemma {:induction false} ContentLoop(r: Req, body: Bytes, missing: nat)
    requires 0 < missing <= |body| && Announces(r.headers, |body|)
    ensures Run(Content, BodyTaken(r, body, missing), body[|body| - missing..]) ==
            Outcome(True, Content, r.(content := body, contentLength := |body|), missing)
    decreases missing
  {
    hide Step, Run, BodyTaken, Announces;
    var k := |body| - missing;
    var s := body[k..];
    assert s[0] == body[k] && s[1..] == body[k + 1..];
    ContentByte(Content, r, body, missing);
    RunStep(Content, BodyTaken(r, body, missing), s);
    if missing > 1 {
      ContentLoop(r, body, missing - 1);
    }
  }

  /** The body of a POST, from its first byte. */
  lemma BodyRead(r: Req, body: Bytes)
    requires 0 < |body| && IsTokenChar(body[0]) && Announces(r.headers, |body|)
    requires r.content == [] && r.contentLength == |body|
    ensures var o := Run(ContentStart, r, body);
            o.result == True && o.used == |body| && o.req == r.(content := body)
  {
    var missing := |body|;
    assert r == BodyTaken(r, body, missing);
    hide Step, Run, BodyTaken, Announces;
    ContentByte(ContentStart, r, body, missing);
    RunStep(ContentStart, r, body);
    if missing > 1 {
      assert body[|body| - (missing - 1)..] == body[1..];
      ContentLoop(r, body, missing - 1);
    }
  }

  /** The blank line of a GET. */
  lemma GetEnd(r: Req)
    requires r.verb == GET
    ensures Run(HeaderLineStart, r, CRLF) == Outcome(True, ExpectingNewline3, r, 2)
  {
    hide Run;
    RunStep(HeaderLineStart, r, CRLF);
    RunStep(ExpectingNewline3, r, CRLF[1..]);
  }

  /** The blank line of a POST. */
  lemma PostEnd(r: Req)
    requires r.verb == POST && Lookup(r.headers, CONTENT_LENGTH) != []
    ensures Leads(HeaderLineStart, r, CRLF, ContentStart, r.(contentLength := Announced(r.headers)))
  {
    hide StrToL, ToInt;
    assert POST[0] != GET[0];
    LookupHas(r.headers, CONTENT_LENGTH);
    LeadsByte(HeaderLineStart, r, CR);
    LeadsByte(ExpectingNewline3, r, LF);
    LeadsOn(HeaderLineStart, r, [CR], ExpectingNewline3, r, [LF], ContentStart, r.(contentLength := Announced(r.headers)));
    assert [CR] + [LF] == CRLF;
  }

  /** From the blank line to the verdict. */
  lemma EndRead(r: Req, body: Bytes)
    requires Ends(r.verb, r.headers, body) && r.content == [] && r.contentLength == 0
    ensures var o := Run(HeaderLineStart, r, CRLF + body);
            o.result == True && o.used == 2 + |body| && o.req == r.(content := body, contentLength := |body|)
  {
    hide Leads, Run, StrToL, ToInt;
    if r.verb == GET && body == [] {
      GetEnd(r);
      assert CRLF + body == CRLF;
    } else {
      var r' := r.(contentLength := |body|);
      LookupHas(r.headers, CONTENT_LENGTH);
      PostEnd(r);
      BodyRead(r', body);
      LeadsThenVerdict(HeaderLineStart, r, CRLF, ContentStart, r', body);
    }
  }

  // ---------- Every text of the language is accepted ----------

  lemma HeadRead(s: Source)
    requires PlainHead(s)
    ensures Leads(MethodStart, NEW_REQUEST, HeadText(s), HeaderLineStart, HeadRequest(s))
  {
    hide Leads, Run, PlainPath, PlainQuery, Digits, PlainLine, TargetText, VersionText, LinesText, AddLines, Magnitude, Params;
    var r1 := NEW_REQUEST.(verb := s.verb);
    var r2 := r1.(uri := TargetText(s), params := Params(s));
    var r3 := r2.(major := Magnitude(s.major, 10, 0), minor := Magnitude(s.minor, 10, 0));
    var r4 := r3.(headers := AddLines([], s.lines));
    VerbRead(NEW_REQUEST, s.verb);
    TargetRead(r1, s);
    VersionRead(r2, s);
    LinesRead(r3, s.lines);
    var t3 := VersionText(s) + LinesText(s.lines);
    var t2 := (TargetText(s) + [SPACE]) + t3;
    LeadsOn(HttpVersionH, r2, VersionText(s), HeaderLineStart, r3, LinesText(s.lines), HeaderLineStart, r4);
    LeadsOn(Uri, r1, TargetText(s) + [SPACE], HttpVersionH, r2, t3, HeaderLineStart, r4);
    LeadsOn(MethodStart, NEW_REQUEST, s.verb + [SPACE], Uri, r1, t2, HeaderLineStart, r4);
  }

  /**
   A text of the language, whatever follows it, is accepted; exactly its bytes are taken, and the request
   that it stands for is rebuilt.
   */
  lemma Accepted(s: Source, rest: Bytes)
    requires Plain(s)
    ensures var o := Run(MethodStart, NEW_REQUEST, Text(s) + rest);
            o.result == True && o.used == |Text(s)| && o.req == Rebuilt(s)
  {
    hide Leads, Run, PlainHead, Ends, HeadText, AddLines, TargetText, Magnitude, Params;
    HeadRead(s);
    EndRead(HeadRequest(s), s.body);
    LeadsThenVerdict(MethodStart, NEW_REQUEST, HeadText(s), HeaderLineStart, HeadRequest(s), CRLF + s.body);
    VerdictExtends(MethodStart, NEW_REQUEST, Text(s), rest);
  }
}
