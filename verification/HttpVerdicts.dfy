/**
 All three verdicts of the request parser, made exact: it waits for more exactly as long as the input can still
 become a text of the grammar, and refuses it at the first byte at which it cannot.
 */
module HttpVerdicts {
  import opened ByteStrings
  import opened HttpSyntax
  import opened HttpRequestParser
  import opened HttpGrammar
  import opened HttpLanguage

  // ---------- Inputs that are not finished ----------

  /** The input is a part of the request line, the header lines and the first byte of the blank line. */
  predicate InTheHead(source: Source, s: Bytes) {
    s <= HeadText(source) + [CR]
  }

  /** The input is the head of a POST and a body that is not complete; a length of zero or less never is. */
  predicate InTheBody(source: Source, s: Bytes) {
    var headers, k := AddLines([], source.lines), |HeadText(source)| + 2;
    && HeadText(source) + CRLF <= s
    && source.verb == POST && Lookup(headers, CONTENT_LENGTH) != []
    && var body, n := s[k..], Announced(headers);
       (body == [] || IsTokenChar(body[0])) && (n <= 0 || |body| < n)
  }

  ghost predicate Unfinished(s: Bytes) {
    exists source :: PlainHead(source) && (InTheHead(source, s) || InTheBody(source, s))
  }

  // ---------- The body ----------

  /** A body is awaited as long as the count has not come down to zero. */
  lemma {:induction false} ContentWaits(r: Req, s: Bytes)
    ensures Run(Content, r, s).result == Indeterminate <==> r.contentLength <= 0 || |s| < r.contentLength
    decreases |s|
  {
    if s == [] {
      RunNothing(Content, r, s);
    } else {
      RunStep(Content, r, s);
      hide Run;
      if r.contentLength != 1 {
        ContentWaits(r.(content := r.content + [s[0]], contentLength := r.contentLength - 1), s[1..]);
      }
    }
  }

  lemma BodyByte(r: Req, c: Byte)
    requires r.content == []
    ensures var (verdict, st', r') := Step(ContentStart, r, c);
            if !IsTokenChar(c) then verdict == False
            else if r.contentLength == 1 then verdict == True
            else verdict == Indeterminate && st' == Content && r'.contentLength == r.contentLength - 1
  {
    hide StrToL, ToInt, Lookup, WithHeader, IsTokenChar;
  }

  lemma BodyWaits(r: Req, s: Bytes)
    requires r.content == []
    ensures Run(ContentStart, r, s).result == Indeterminate <==>
            s == [] || (IsTokenChar(s[0]) && (r.contentLength <= 0 || |s| < r.contentLength))
  {
    hide Run, Step, IsTokenChar;
    if s == [] {
      RunNothing(ContentStart, r, s);
    } else {
      RunStep(ContentStart, r, s);
      BodyByte(r, s[0]);
      var (verdict, _, r') := Step(ContentStart, r, s[0]);
      if verdict == Indeterminate {
        ContentWaits(r', s[1..]);
      }
    }
  }

  // ---------- Unfinished inputs are awaited ----------

  /** A part of what leads on leads on. */
  lemma PrefixWaits(st: State, r: Req, s: Bytes, t: Bytes)
    requires Ready(st, r) && s <= t && Run(st, r, t).result == Indeterminate
    ensures Run(st, r, s).result == Indeterminate
  {
    var more := t[|s|..];
    assert t == s + more;
    RunSplits(st, r, s, more);
  }

  lemma CrRead(r: Req)
    ensures Leads(HeaderLineStart, r, [CR], ExpectingNewline3, r)
  {
    LeadsByte(HeaderLineStart, r, CR);
  }

  lemma HeadWaits(source: Source, s: Bytes)
    requires PlainHead(source) && InTheHead(source, s)
    ensures Run(MethodStart, NEW_REQUEST, s).result == Indeterminate
  {
    hide PlainHead, HeadText, HeadRequest, Run;
    var r := HeadRequest(source);
    HeadRead(source);
    CrRead(r);
    LeadsOn(MethodStart, NEW_REQUEST, HeadText(source), HeaderLineStart, r, [CR], ExpectingNewline3, r);
    PrefixWaits(MethodStart, NEW_REQUEST, s, HeadText(source) + [CR]);
  }

  /** A POST behind its blank line. */
  lemma PostRun(source: Source, body: Bytes)
    requires PlainHead(source) && source.verb == POST && Lookup(AddLines([], source.lines), CONTENT_LENGTH) != []
    ensures var n := Announced(AddLines([], source.lines));
            Run(MethodStart, NEW_REQUEST, HeadText(source) + CRLF + body).result == Indeterminate <==>
            body == [] || (IsTokenChar(body[0]) && (n <= 0 || |body| < n))
  {
    hide PlainHead, HeadText, Run, Leads, Announced, AddLines, Lookup;
    var r := HeadRequest(source);
    var r' := r.(contentLength := Announced(r.headers));
    HeadRead(source);
    PostEnd(r);
    LeadsOn(MethodStart, NEW_REQUEST, HeadText(source), HeaderLineStart, r, CRLF, ContentStart, r');
    BodyWaits(r', body);
    LeadsThenVerdict(MethodStart, NEW_REQUEST, HeadText(source) + CRLF, ContentStart, r', body);
  }

  lemma UnfinishedWaits(s: Bytes)
    requires Unfinished(s)
    ensures Run(MethodStart, NEW_REQUEST, s).result == Indeterminate
  {
    hide PlainHead, HeadText, Run, Announced, AddLines, Lookup;
    var source :| PlainHead(source) && (InTheHead(source, s) || InTheBody(source, s));
    if InTheHead(source, s) {
      HeadWaits(source, s);
    } else {
      var body := s[|HeadText(source)| + 2..];
      assert s == HeadText(source) + CRLF + body;
      PostRun(source, body);
    }
  }

  // ---------- What is awaited is unfinished ----------

  /** The state for which no input was ever meant. */
  predicate Stuck(st: State) {
    st == ParamValueStart
  }

  lemma {:induction false} NeverStuck(st: State, r: Req, s: Bytes)
    requires Ready(st, r) && !Stuck(st) && Run(st, r, s).result == Indeterminate
    ensures !Stuck(Run(st, r, s).state)
    decreases |s|
  {
    if s != [] {
      RunStep(st, r, s);
      var (_, st', r') := Step(st, r, s[0]);
      StepNotStuck(st, r, s[0]);
      hide Step, Run;
      NeverStuck(st', r', s[1..]);
    }
  }

  lemma StepNotStuck(st: State, r: Req, c: Byte)
    requires Ready(st, r) && !Stuck(st)
    ensures var (verdict, st', _) := Step(st, r, c); verdict == Indeterminate ==> !Stuck(st')
  {
  }

  /** A byte that leads on from a state towards the blank line. */
  function Onward(st: State): Byte {
    match st
    case MethodStart => 'G' as int
    case Method => SPACE
    case Uri => SPACE
    case ParamNameStart => SPACE
    case ParamName => SPACE
    case ParamValue => SPACE
    case HttpVersionH => 'H' as int
    case HttpVersionT1 => 'T' as int
    case HttpVersionT2 => 'T' as int
    case HttpVersionP => 'P' as int
    case HttpVersionSlash => SLASH
    case HttpVersionMajorStart => ZERO
    case HttpVersionMajor => DOT
    case HttpVersionMinorStart => ZERO
    case HttpVersionMinor => CR
    case HeaderLineStart => CR
    case HeaderLws => CR
    case HeaderName => COLON
    case SpaceBeforeHeaderValue => SPACE
    case HeaderValue => CR
    case _ => LF
  }

  function StepsOnward(st: State): nat {
    match st
    case MethodStart => 17
    case Method => 16
    case Uri => 15
    case ParamNameStart => 15
    case ParamName => 15
    case ParamValueStart => 15
    case ParamValue => 15
    case HttpVersionH => 14
    case HttpVersionT1 => 13
    case HttpVersionT2 => 12
    case HttpVersionP => 11
    case HttpVersionSlash => 10
    case HttpVersionMajorStart => 9
    case HttpVersionMajor => 8
    case HttpVersionMinorStart => 7
    case HttpVersionMinor => 6
    case ExpectingNewline1 => 2
    case HeaderName => 5
    case SpaceBeforeHeaderValue => 4
    case HeaderLws => 3
    case HeaderValue => 3
    case ExpectingNewline2 => 2
    case HeaderLineStart => 1
    case _ => 0
  }

  ghost predicate Leading(st: State, r: Req)
    requires Ready(st, r)
  {
    var (verdict, st', _) := Step(st, r, Onward(st));
    && verdict == Indeterminate && StepsOnward(st') < StepsOnward(st) && !Stuck(st')
    && (InHead(st') || st' == ExpectingNewline3)
  }

  lemma TargetGoesOn(st: State, r: Req)
    requires Ready(st, r) && TargetState(st) && !Stuck(st)
    ensures Leading(st, r)
  {
    hide StepVersion, StepHeader, StepBody;
  }

  lemma VersionGoesOn(st: State, r: Req)
    requires Ready(st, r) && VersionState(st)
    ensures Leading(st, r)
  {
    hide StepTarget, StepHeader, StepBody;
  }

  lemma HeaderGoesOn(st: State, r: Req)
    requires Ready(st, r) && HeaderState(st)
    ensures Leading(st, r)
  {
    hide StepTarget, StepVersion, StepBody;
  }

  lemma GoesOn(st: State, r: Req)
    requires Ready(st, r) && InHead(st) && !Stuck(st)
    ensures Leading(st, r)
  {
    hide Leading, TargetState, VersionState, HeaderState, Stuck;
    if TargetState(st) {
      TargetGoesOn(st, r);
    } else if VersionState(st) {
      VersionGoesOn(st, r);
    } else {
      HeaderGoesOn(st, r);
    }
  }

  /** From every state of the head that can be reached, some bytes lead to the blank line. */
  lemma {:induction false} CanPass(st: State, r: Req) returns (s: Bytes)
    requires Ready(st, r) && !Stuck(st) && (InHead(st) || st == ExpectingNewline3)
    ensures Passes(st, r, s)
    decreases StepsOnward(st)
  {
    hide Step, Stuck, StepsOnward, Onward, InHead;
    if st == ExpectingNewline3 {
      s := [];
    } else {
      GoesOn(st, r);
      var (_, st', r') := Step(st, r, Onward(st));
      var rest := CanPass(st', r');
      s := [Onward(st)] + rest;
      assert s[1..] == rest;
    }
  }

  /** What leads to a state from which it passes, passes. */
  lemma {:induction false} PassesLater(st: State, r: Req, s: Bytes, t: Bytes)
    requires Ready(st, r) && Run(st, r, s).result == Indeterminate
    requires var o := Run(st, r, s); Passes(o.state, o.req, t)
    ensures Passes(st, r, s + t)
    decreases |s|
  {
    hide Step, Run;
    if s == [] {
      RunNothing(st, r, s);
      assert s + t == t;
    } else if st != ExpectingNewline3 {
      RunStep(st, r, s);
      var (_, st', r') := Step(st, r, s[0]);
      assert (s + t)[0] == s[0] && (s + t)[1..] == s[1..] + t;
      PassesLater(st', r', s[1..], t);
    }
  }

  /** The input ends in the head. */
  lemma WaitsInHead(s: Bytes)
    requires var o := Run(MethodStart, NEW_REQUEST, s); o.result == Indeterminate && (InHead(o.state) || o.state == ExpectingNewline3)
    ensures Unfinished(s)
  {
    hide Run, Step, Passes, PlainHead, HeadText, HeadRequest, Leads, InHead;
    var o := Run(MethodStart, NEW_REQUEST, s);
    NeverStuck(MethodStart, NEW_REQUEST, s);
    var t := CanPass(o.state, o.req);
    PassesLater(MethodStart, NEW_REQUEST, s, t);
    var source, rest := HeadSplit(s + t);
    var head := HeadText(source) + [CR];
    assert s + t == head + rest[1..];
    OneInTheOther(s, t, head, rest[1..]);
    if |s| > |head| {
      BeyondHead(source, s);
    }
  }

  lemma OneInTheOther(s: Bytes, t: Bytes, head: Bytes, tail: Bytes)
    requires s + t == head + tail
    ensures |s| <= |head| ==> s <= head
    ensures |head| <= |s| ==> head <= s
  {
    assert s == (s + t)[..|s|] && head == (head + tail)[..|head|];
  }

  /** Behind the first byte of the blank line, the state is no longer one of the head. */
  lemma BeyondHead(source: Source, s: Bytes)
    requires PlainHead(source) && HeadText(source) + [CR] <= s && |s| > |HeadText(source)| + 1
    requires Run(MethodStart, NEW_REQUEST, s).result == Indeterminate
    ensures !InHead(Run(MethodStart, NEW_REQUEST, s).state) && Run(MethodStart, NEW_REQUEST, s).state != ExpectingNewline3
  {
    hide Step, PlainHead, HeadText, HeadRequest, Leads, InHead;
    var head, r := HeadText(source) + [CR], HeadRequest(source);
    HeadRead(source);
    CrRead(r);
    LeadsOn(MethodStart, NEW_REQUEST, HeadText(source), HeaderLineStart, r, [CR], ExpectingNewline3, r);
    var tail := s[|head|..];
    assert s == head + tail;
    LeadsThenVerdict(MethodStart, NEW_REQUEST, head, ExpectingNewline3, r, tail);
    NotInHead();
    StaysInBody(ExpectingNewline3, r, tail);
    StaysBehind(ExpectingNewline3, r, tail);
  }

  lemma {:induction false} StaysInBody(st: State, r: Req, s: Bytes)
    requires !InHead(st) && Run(st, r, s).result == Indeterminate && (s != [] || st != ExpectingNewline3)
    ensures Run(st, r, s).state in {ContentStart, Content}
    decreases |s|
  {
    if s != [] {
      RunStep(st, r, s);
      var (_, st', r') := Step(st, r, s[0]);
      hide Run;
      StaysInBody(st', r', s[1..]);
    }
  }

  lemma StartInHead()
    ensures InHead(MethodStart)
  {
  }

  /** The input ends behind the head. */
  lemma WaitsInBody(s: Bytes)
    requires var o := Run(MethodStart, NEW_REQUEST, s); o.result == Indeterminate && !InHead(o.state) && o.state != ExpectingNewline3
    ensures Unfinished(s)
  {
    hide Run, Step, Passes, PlainHead, HeadText, Leads, InHead, Lookup, AddLines, Announced;
    assert InHead(MethodStart) by { StartInHead(); }
    GotPast(MethodStart, NEW_REQUEST, s);
    var source, rest := HeadSplit(s);
    var r := HeadRequest(source);
    HeadRead(source);
    LeadsThenVerdict(MethodStart, NEW_REQUEST, HeadText(source), HeaderLineStart, r, rest);
    BlankLine(r, rest);
    var body := rest[2..];
    assert s == HeadText(source) + CRLF + body;
    PostRun(source, body);
    assert InTheBody(source, s);
  }

  /** The blank line was read, so this is a POST with a length. */
  lemma BlankLine(r: Req, s: Bytes)
    requires s != [] && s[0] == CR && Run(HeaderLineStart, r, s).result == Indeterminate
    requires Run(HeaderLineStart, r, s).state != ExpectingNewline3
    ensures |s| >= 2 && s[1] == LF && r.verb == POST && Lookup(r.headers, CONTENT_LENGTH) != []
  {
    hide Run, Lookup, StrToL, ToInt;
    RunStep(HeaderLineStart, r, s);
    if |s| == 1 {
      RunNothing(ExpectingNewline3, r, s[1..]);
    } else {
      RunStep(ExpectingNewline3, r, s[1..]);
    }
  }

  lemma {:induction false} GotPast(st: State, r: Req, s: Bytes)
    requires Ready(st, r) && InHead(st) && Run(st, r, s).result == Indeterminate
    requires !InHead(Run(st, r, s).state)
    ensures Passes(st, r, s)
    decreases |s|
  {
    if s == [] {
      RunNothing(st, r, s);
    } else {
      RunStep(st, r, s);
      StepInHead(st, r, s[0]);
      hide Step, Run, InHead;
      var (_, st', r') := Step(st, r, s[0]);
      if InHead(st') { GotPast(st', r', s[1..]); }
    }
  }

  // ---------- A POST without a length ----------

  /** The words that the parser compares with. */
  lemma WordsSpelt()
    ensures Spells(GET, "GET") && Spells(POST, "POST") && Spells(CONTENT_LENGTH, "Content-Length")
  {
  }

  lemma UnannouncedEnd(r: Req, t: Bytes)
    requires r.verb == POST && Lookup(r.headers, CONTENT_LENGTH) == []
    ensures var o := Run(HeaderLineStart, r, CRLF + t);
            o.result == False && o.used == 2 && o.req == r.(headers := WithHeader(r.headers, CONTENT_LENGTH))
  {
    hide Lookup, WithHeader, Run, StrToL, ToInt;
    assert POST[0] != GET[0];
    var s := CRLF + t;
    RunStep(HeaderLineStart, r, s);
    assert s[1..] == [LF] + t;
    RunStep(ExpectingNewline3, r, s[1..]);
  }

  /** A POST that announces no length is refused at its blank line, and looking for the length has left an empty header. */
  lemma Unannounced(source: Source, t: Bytes)
    requires PlainHead(source) && source.verb == POST && Lookup(AddLines([], source.lines), CONTENT_LENGTH) == []
    ensures var o, headers := Run(MethodStart, NEW_REQUEST, HeadText(source) + (CRLF + t)), AddLines([], source.lines);
            && o.result == False && o.used == |HeadText(source)| + 2
            && (Has(headers, CONTENT_LENGTH) ==> o.req.headers == headers)
            && (!Has(headers, CONTENT_LENGTH) ==> o.req.headers == headers + [NameValue(CONTENT_LENGTH, [])])
  {
    hide PlainHead, HeadText, Run, Leads, AddLines, Lookup, Has;
    HeadRead(source);
    UnannouncedEnd(HeadRequest(source), t);
    LeadsThenVerdict(MethodStart, NEW_REQUEST, HeadText(source), HeaderLineStart, HeadRequest(source), CRLF + t);
  }

  // ---------- The verdicts ----------

  /** More is awaited if and only if the input is unfinished. */
  lemma Awaited(s: Bytes)
    ensures Run(MethodStart, NEW_REQUEST, s).result == Indeterminate <==> Unfinished(s)
  {
    hide Run, Unfinished, InHead;
    if Unfinished(s) {
      UnfinishedWaits(s);
    } else if Run(MethodStart, NEW_REQUEST, s).result == Indeterminate {
      var o := Run(MethodStart, NEW_REQUEST, s);
      if InHead(o.state) || o.state == ExpectingNewline3 {
        WaitsInHead(s);
      } else {
        WaitsInBody(s);
      }
    }
  }

  /** A verdict comes with the last byte that was taken and not before. */
  lemma {:induction false} VerdictAtLast(st: State, r: Req, s: Bytes, j: nat)
    requires Ready(st, r) && j <= |s|
    ensures var o := Run(st, r, s); Run(st, r, s[..j]).result == Indeterminate <==> j < o.used || o.result == Indeterminate
    decreases j
  {
    if j == 0 {
      RunNothing(st, r, s[..0]);
      if s != [] { RunStep(st, r, s); }
    } else {
      RunStep(st, r, s);
      RunStep(st, r, s[..j]);
      assert s[..j][1..] == s[1..][..j - 1];
      var (verdict, st', r') := Step(st, r, s[0]);
      hide Step, Run;
      if verdict == Indeterminate {
        VerdictAtLast(st', r', s[1..], j - 1);
      }
    }
  }

  /**
   For every input: the request is complete if and only if a text of the grammar is there; more is awaited if and
   only if the input is unfinished; and any other input is refused. Of the parts of an input exactly those are
   unfinished that are shorter than what was taken for the verdict: a refusal comes with the first byte with which
   no text of the grammar begins any more.
   */
  lemma Verdicts(s: Bytes)
    ensures var o := Run(MethodStart, NEW_REQUEST, s);
            && (o.result == True <==> exists source :: Plain(source) && Text(source) <= s)
            && (o.result == Indeterminate <==> Unfinished(s))
            && forall j | 0 <= j <= |s| :: Unfinished(s[..j]) <==> j < o.used || o.result == Indeterminate
  {
    hide Run, Unfinished, Plain, Text;
    Language(s);
    Awaited(s);
    forall j | 0 <= j <= |s|
      ensures Unfinished(s[..j]) <==> j < Run(MethodStart, NEW_REQUEST, s).used || Run(MethodStart, NEW_REQUEST, s).result == Indeterminate
    {
      Awaited(s[..j]);
      VerdictAtLast(MethodStart, NEW_REQUEST, s, j);
    }
  }
}
