/**
 The incremental request parser of `request_parser.hpp`. `Step` says what one byte does; the parser itself
 runs through stretches of bytes in inner loops and may be stopped and resumed between any two bytes.
 */
module HttpRequestParser {
  import opened ByteStrings
  import opened HttpSyntax

  datatype State =
    | MethodStart
    | Method
    | Uri
    | ParamNameStart
    | ParamName
    | ParamValueStart
    | ParamValue
    | HttpVersionH
    | HttpVersionT1
    | HttpVersionT2
    | HttpVersionP
    | HttpVersionSlash
    | HttpVersionMajorStart
    | HttpVersionMajor
    | HttpVersionMinorStart
    | HttpVersionMinor
    | ExpectingNewline1
    | HeaderLineStart
    | HeaderLws
    | HeaderName
    | SpaceBeforeHeaderValue
    | HeaderValue
    | ExpectingNewline2
    | ExpectingNewline3
    | ContentStart
    | Content

  /** `boost::tribool` */
  datatype Tribool = True | False | Indeterminate

  datatype NameValue = NameValue(name: Bytes, value: Bytes)

  /** The fields of a request that the parser fills in. */
  datatype Req = Req(
    verb: Bytes,
    uri: Bytes,
    major: int,
    minor: int,
    headers: seq<NameValue>,
    content: Bytes,
    contentLength: int,
    params: seq<NameValue>)

  const GET: Bytes := ['G' as int, 'E' as int, 'T' as int]
  const POST: Bytes := ['P' as int, 'O' as int, 'S' as int, 'T' as int]
  const CONTENT_LENGTH: Bytes :=
    ['C' as int, 'o' as int, 'n' as int, 't' as int, 'e' as int, 'n' as int, 't' as int, '-' as int,
     'L' as int, 'e' as int, 'n' as int, 'g' as int, 't' as int, 'h' as int]

  // ---------- Lists of names and values ----------

  function AddName(nvs: seq<NameValue>, c: Byte): (r: seq<NameValue>)
    requires nvs != []
    ensures r != []
  {
    var n := |nvs| - 1;
    nvs[n := nvs[n].(name := nvs[n].name + [c])]
  }

  function AddValue(nvs: seq<NameValue>, c: Byte): (r: seq<NameValue>)
    requires nvs != []
    ensures r != []
  {
    var n := |nvs| - 1;
    nvs[n := nvs[n].(value := nvs[n].value + [c])]
  }

  /** The value of the first entry with the name; an absent name reads as empty. */
  function Lookup(nvs: seq<NameValue>, name: Bytes): Bytes {
    if nvs == [] then [] else if nvs[0].name == name then nvs[0].value else Lookup(nvs[1..], name)
  }

  predicate Has(nvs: seq<NameValue>, name: Bytes) {
    exists i | 0 <= i < |nvs| :: nvs[i].name == name
  }

  /** Looking a header up adds an empty one when it is absent. */
  function WithHeader(nvs: seq<NameValue>, name: Bytes): seq<NameValue> {
    if Has(nvs, name) then nvs else nvs + [NameValue(name, [])]
  }

  // ---------- One byte ----------

  /** The lists that the state goes on filling are not empty. */
  predicate Ready(st: State, r: Req) {
    && (st in {ParamName, ParamValue} ==> r.params != [])
    && (st in {HeaderLws, HeaderName, SpaceBeforeHeaderValue, HeaderValue} ==> r.headers != [])
  }

  predicate TargetState(st: State) {
    st in {MethodStart, Method, Uri, ParamNameStart, ParamName, ParamValueStart, ParamValue}
  }

  predicate VersionState(st: State) {
    || st in {HttpVersionH, HttpVersionT1, HttpVersionT2, HttpVersionP, HttpVersionSlash}
    || st in {HttpVersionMajorStart, HttpVersionMajor, HttpVersionMinorStart, HttpVersionMinor, ExpectingNewline1}
  }

  predicate HeaderState(st: State) {
    st in {HeaderLineStart, HeaderLws, HeaderName, SpaceBeforeHeaderValue, HeaderValue, ExpectingNewline2}
  }

  /** The states with an inner loop. */
  predicate LoopState(st: State) {
    st in {Method, Uri, ParamName, ParamValue, HeaderName, HeaderValue}
  }

  /** The effect of one byte. */
  function Step(st: State, r: Req, c: Byte): (o: (Tribool, State, Req))
    requires Ready(st, r)
    ensures o.0.Indeterminate? ==> Ready(o.1, o.2)
  {
    if TargetState(st) then StepTarget(st, r, c)
    else if VersionState(st) then StepVersion(st, r, c)
    else if HeaderState(st) then StepHeader(st, r, c)
    else StepBody(st, r, c)
  }

  /** The effect of one byte in the method and the target. */
  function StepTarget(st: State, r: Req, c: Byte): (o: (Tribool, State, Req))
    requires TargetState(st) && Ready(st, r)
    ensures o.0.Indeterminate? ==> Ready(o.1, o.2)
  {
    match st
    case MethodStart =>
      if !IsTokenChar(c) then (False, st, r) else (Indeterminate, Method, r.(verb := r.verb + [c]))
    case Method =>
      if c == SPACE then (Indeterminate, Uri, r)
      else if !IsTokenChar(c) then (False, st, r)
      else (Indeterminate, st, r.(verb := r.verb + [c]))
    case Uri =>
      if c == QUESTION then (Indeterminate, ParamNameStart, r.(uri := r.uri + [c]))
      else if c == SPACE then (Indeterminate, HttpVersionH, r)
      else if IsCtl(c) then (False, st, r)
      else (Indeterminate, st, r.(uri := r.uri + [c]))
    case ParamNameStart =>
      if c == SPACE then (Indeterminate, HttpVersionH, r)
      else if !IsTokenChar(c) then (False, st, r)
      else (Indeterminate, ParamName, r.(uri := r.uri + [c], params := r.params + [NameValue([c], [])]))
    case ParamName =>
      if c == SPACE then (Indeterminate, HttpVersionH, r)
      else if c == EQUALS then (Indeterminate, ParamValue, r.(uri := r.uri + [c]))
      else if !IsTokenChar(c) then (False, st, r)
      else (Indeterminate, st, r.(uri := r.uri + [c], params := AddName(r.params, c)))
    case ParamValueStart => (False, st, r)
    case ParamValue =>
      if c == SPACE then (Indeterminate, HttpVersionH, r)
      else if c == AMPERSAND then (Indeterminate, ParamNameStart, r.(uri := r.uri + [c]))
      else if !IsTokenChar(c) then (False, st, r)
      else (Indeterminate, st, r.(uri := r.uri + [c], params := AddValue(r.params, c)))
  }

  /** The effect of one byte in the version. */
  function StepVersion(st: State, r: Req, c: Byte): (o: (Tribool, State, Req))
    requires VersionState(st)
    ensures o.0.Indeterminate? ==> Ready(o.1, o.2)
  {
    match st
    case HttpVersionH => if c == 'H' as int then (Indeterminate, HttpVersionT1, r) else (False, st, r)
    case HttpVersionT1 => if c == 'T' as int then (Indeterminate, HttpVersionT2, r) else (False, st, r)
    case HttpVersionT2 => if c == 'T' as int then (Indeterminate, HttpVersionP, r) else (False, st, r)
    case HttpVersionP => if c == 'P' as int then (Indeterminate, HttpVersionSlash, r) else (False, st, r)
    case HttpVersionSlash =>
      if c == SLASH then (Indeterminate, HttpVersionMajorStart, r.(major := 0, minor := 0)) else (False, st, r)
    case HttpVersionMajorStart =>
      if IsDigit(c) then (Indeterminate, HttpVersionMajor, r.(major := r.major * 10 + c - ZERO)) else (False, st, r)
    case HttpVersionMajor =>
      if c == DOT then (Indeterminate, HttpVersionMinorStart, r)
      else if IsDigit(c) then (Indeterminate, st, r.(major := r.major * 10 + c - ZERO))
      else (False, st, r)
    case HttpVersionMinorStart =>
      if IsDigit(c) then (Indeterminate, HttpVersionMinor, r.(minor := r.minor * 10 + c - ZERO)) else (False, st, r)
    case HttpVersionMinor =>
      if c == CR then (Indeterminate, ExpectingNewline1, r)
      else if IsDigit(c) then (Indeterminate, st, r.(minor := r.minor * 10 + c - ZERO))
      else (False, st, r)
    case ExpectingNewline1 => if c == LF then (Indeterminate, HeaderLineStart, r) else (False, st, r)
  }

  /** The effect of one byte in the header lines. */
  function StepHeader(st: State, r: Req, c: Byte): (o: (Tribool, State, Req))
    requires HeaderState(st) && Ready(st, r)
    ensures o.0.Indeterminate? ==> Ready(o.1, o.2)
  {
    match st
    case HeaderLineStart =>
      if c == CR then (Indeterminate, ExpectingNewline3, r)
      else if r.headers != [] && (c == SPACE || c == TAB) then (Indeterminate, HeaderLws, r)
      else if !IsTokenChar(c) then (False, st, r)
      else (Indeterminate, HeaderName, r.(headers := r.headers + [NameValue([c], [])]))
    case HeaderLws =>
      if c == CR then (Indeterminate, ExpectingNewline2, r)
      else if c == SPACE || c == TAB then (Indeterminate, st, r)
      else if IsCtl(c) then (False, st, r)
      else (Indeterminate, HeaderValue, r.(headers := AddValue(r.headers, c)))
    case HeaderName =>
      if c == COLON then (Indeterminate, SpaceBeforeHeaderValue, r)
      else if !IsTokenChar(c) then (False, st, r)
      else (Indeterminate, st, r.(headers := AddName(r.headers, c)))
    case SpaceBeforeHeaderValue => if c == SPACE then (Indeterminate, HeaderValue, r) else (False, st, r)
    case HeaderValue =>
      if c == CR then (Indeterminate, ExpectingNewline2, r)
      else if IsCtl(c) then (False, st, r)
      else (Indeterminate, st, r.(headers := AddValue(r.headers, c)))
    case ExpectingNewline2 => if c == LF then (Indeterminate, HeaderLineStart, r) else (False, st, r)
  }

  /** The effect of one byte in the end of the headers and in the body. */
  function StepBody(st: State, r: Req, c: Byte): (o: (Tribool, State, Req))
    requires !TargetState(st) && !VersionState(st) && !HeaderState(st)
    ensures o.0.Indeterminate? ==> Ready(o.1, o.2)
  {
    match st
    case ExpectingNewline3 =>
      if r.verb == GET && c == LF then (True, st, r)
      else if r.verb == POST && c == LF then
        var r' := r.(headers := WithHeader(r.headers, CONTENT_LENGTH));
        var length := Lookup(r.headers, CONTENT_LENGTH);
        if length == [] then (False, st, r')
        else (Indeterminate, ContentStart, r'.(contentLength := ToInt(StrToL(length))))
      else (False, st, r)
    case ContentStart =>
      if r.content != [] then (False, st, r)
      else if !IsTokenChar(c) then (False, st, r)
      else WithContent(st, r, c)
    case Content => WithContent(st, r, c)
  }

  /** A byte of the body: the one that brings the count down to zero completes the request. */
  function WithContent(st: State, r: Req, c: Byte): (Tribool, State, Req) {
    var left := r.contentLength - 1;
    var r' := r.(content := r.content + [c], contentLength := left);
    if left == 0 then
      (True, st,
       r'.(headers := WithHeader(r.headers, CONTENT_LENGTH), contentLength := ToInt(StrToL(Lookup(r.headers, CONTENT_LENGTH)))))
    else (Indeterminate, Content, r')
  }

  // ---------- Many bytes ----------

  /** The verdict, the state and request it leaves, and the number of bytes it took. */
  datatype Outcome = Outcome(result: Tribool, state: State, req: Req, used: nat)

  function Later(o: Outcome, n: nat): Outcome {
    o.(used := n + o.used)
  }

  /** The effect of a run of bytes: one at a time, up to a verdict. */
  function Run(st: State, r: Req, s: Bytes): (o: Outcome)
    requires Ready(st, r)
    ensures o.used <= |s|
    ensures o.result.Indeterminate? ==> o.used == |s| && Ready(o.state, o.req)
    decreases |s|
  {
    if s == [] then Outcome(Indeterminate, st, r, 0) else
    var (result, st', r') := Step(st, r, s[0]);
    if result != Indeterminate then Outcome(result, st', r', 1) else Later(Run(st', r', s[1..]), 1)
  }

  /** Chunk independence: parsing `a` and then `b` is parsing `a + b`. */
  lemma {:induction false} RunSplits(st: State, r: Req, a: Bytes, b: Bytes)
    requires Ready(st, r)
    ensures var o := Run(st, r, a);
            Run(st, r, a + b) == if o.result.Indeterminate? then Later(Run(o.state, o.req, b), |a|) else o
    decreases |a|
  {
    if a == [] {
      assert a + b == b;
    } else {
      assert (a + b)[1..] == a[1..] + b;
      var (result, st', r') := Step(st, r, a[0]);
      if result == Indeterminate {
        RunSplits(st', r', a[1..], b);
      }
    }
  }

  lemma RunStep(st: State, r: Req, s: Bytes)
    requires Ready(st, r) && s != []
    ensures var (result, st', r') := Step(st, r, s[0]);
            Run(st, r, s) == if result != Indeterminate then Outcome(result, st', r', 1) else Later(Run(st', r', s[1..]), 1)
  {
  }

  lemma RunNothing(st: State, r: Req, s: Bytes)
    requires Ready(st, r) && s == []
    ensures Run(st, r, s) == Outcome(Indeterminate, st, r, 0)
  {
  }

  // ---------- The parser ----------

  /** The part of a request that the parser fills in. */
  class Request {
    var verb: Bytes
    var uri: Bytes
    var major: int
    var minor: int
    var headers: seq<NameValue>
    var content: Bytes
    var contentLength: int
    var params: seq<NameValue>

    constructor ()
      ensures Value() == Req([], [], 0, 0, [], [], 0, [])
    {
      verb, uri, major, minor, headers, content, contentLength, params := [], [], 0, 0, [], [], 0, [];
    }

    ghost function Value(): Req
      reads this
    {
      Req(verb, uri, major, minor, headers, content, contentLength, params)
    }

    /** `header`: the value of the first header with the name, which is added when there is none. */
    method Header(name: Bytes) returns (value: Bytes)
      modifies this
      ensures value == old(Lookup(headers, name))
      ensures Value() == old(Value()).(headers := WithHeader(old(headers), name))
    {
      var i := 0;
      while i < |headers| && headers[i].name != name
        invariant 0 <= i <= |headers| && headers == old(headers)
        invariant forall j | 0 <= j < i :: headers[j].name != name
        invariant Lookup(headers, name) == Lookup(headers[i..], name)
      {
        assert headers[i..][1..] == headers[i + 1..];
        i := i + 1;
      }
      if i == |headers| {
        headers := headers + [NameValue(name, [])];
        value := [];
      } else {
        value := headers[i].value;
      }
    }
  }

  class RequestParser {
    var state: State

    constructor ()
      ensures state == MethodStart
    {
      state := MethodStart;
    }

    method Reset()
      modifies this
      ensures state == MethodStart
    {
      state := MethodStart;
    }

    /** After `n` bytes of the input, with the rest still to come, the run is where it would be. */
    ghost predicate Follows(o: Outcome, result: Tribool, n: nat, req: Request, rest: Bytes)
      reads this, req
    {
      && (result.Indeterminate? ==> Ready(state, req.Value()))
      && o == if result.Indeterminate? then Later(Run(state, req.Value(), rest), n)
              else Outcome(result, state, req.Value(), n)
    }

    /** The loop of the state `method`: bytes are taken until the state changes, the input ends or a byte is refused. */
    method InMethod(req: Request, input: Bytes, begin: nat) returns (result: Tribool, pos: nat)
      requires state == Method && Ready(state, req.Value()) && begin < |input|
      modifies this, req
      ensures begin < pos <= |input|
      ensures Follows(old(Run(state, req.Value(), input[begin..])), result, pos - begin, req, input[pos..])
    {
      hide Run;
      ghost var o := Run(state, req.Value(), input[begin..]);
      result, pos := Indeterminate, begin;
      while true
        invariant begin <= pos < |input| && state == Method && result.Indeterminate?
        invariant Follows(o, result, pos - begin, req, input[pos..])
        decreases |input| - pos
      {
        var c := input[pos];
        assert input[pos..][0] == c && input[pos..][1..] == input[pos + 1..];
        RunStep(state, req.Value(), input[pos..]);
        pos := pos + 1;
        if c == SPACE {
          state := Uri;
          break;
        } else if !IsChar(c) || IsCtl(c) || IsTspecial(c) {
          result := False;
          break;
        } else {
          req.verb := req.verb + [c];
        }
        if pos == |input| { break; }
      }
    }

    /** The loop of the state `uri`. */
    method InUri(req: Request, input: Bytes, begin: nat) returns (result: Tribool, pos: nat)
      requires state == Uri && Ready(state, req.Value()) && begin < |input|
      modifies this, req
      ensures begin < pos <= |input|
      ensures Follows(old(Run(state, req.Value(), input[begin..])), result, pos - begin, req, input[pos..])
    {
      hide Run;
      ghost var o := Run(state, req.Value(), input[begin..]);
      result, pos := Indeterminate, begin;
      while true
        invariant begin <= pos < |input| && state == Uri && result.Indeterminate?
        invariant Follows(o, result, pos - begin, req, input[pos..])
        decreases |input| - pos
      {
        var c := input[pos];
        assert input[pos..][0] == c && input[pos..][1..] == input[pos + 1..];
        RunStep(state, req.Value(), input[pos..]);
        pos := pos + 1;
        if c == QUESTION {
          state := ParamNameStart;
          req.uri := req.uri + [c];
          break;
        } else if c == SPACE {
          state := HttpVersionH;
          break;
        } else if IsCtl(c) {
          result := False;
          break;
        } else {
          req.uri := req.uri + [c];
        }
        if pos == |input| { break; }
      }
    }

    /** The loop of the state `param_name`. */
    method InParamName(req: Request, input: Bytes, begin: nat) returns (result: Tribool, pos: nat)
      requires state == ParamName && Ready(state, req.Value()) && begin < |input|
      modifies this, req
      ensures begin < pos <= |input|
      ensures Follows(old(Run(state, req.Value(), input[begin..])), result, pos - begin, req, input[pos..])
    {
      hide Run;
      ghost var o := Run(state, req.Value(), input[begin..]);
      result, pos := Indeterminate, begin;
      while true
        invariant begin <= pos < |input| && state == ParamName && result.Indeterminate?
        invariant Follows(o, result, pos - begin, req, input[pos..])
        decreases |input| - pos
      {
        var c := input[pos];
        assert input[pos..][0] == c && input[pos..][1..] == input[pos + 1..];
        RunStep(state, req.Value(), input[pos..]);
        pos := pos + 1;
        if c == SPACE {
          state := HttpVersionH;
          break;
        } else if c == EQUALS {
          state := ParamValue;
          req.uri := req.uri + [c];
          break;
        } else if !IsChar(c) || IsCtl(c) || IsTspecial(c) {
          result := False;
          break;
        } else {
          req.uri := req.uri + [c];
          req.params := AddName(req.params, c);
        }
        if pos == |input| { break; }
      }
    }

    /** The loop of the state `param_value`. */
    method InParamValue(req: Request, input: Bytes, begin: nat) returns (result: Tribool, pos: nat)
      requires state == ParamValue && Ready(state, req.Value()) && begin < |input|
      modifies this, req
      ensures begin < pos <= |input|
      ensures Follows(old(Run(state, req.Value(), input[begin..])), result, pos - begin, req, input[pos..])
    {
      hide Run;
      ghost var o := Run(state, req.Value(), input[begin..]);
      result, pos := Indeterminate, begin;
      while true
        invariant begin <= pos < |input| && state == ParamValue && result.Indeterminate?
        invariant Follows(o, result, pos - begin, req, input[pos..])
        decreases |input| - pos
      {
        var c := input[pos];
        assert input[pos..][0] == c && input[pos..][1..] == input[pos + 1..];
        RunStep(state, req.Value(), input[pos..]);
        pos := pos + 1;
        if c == SPACE {
          state := HttpVersionH;
          break;
        } else if c == AMPERSAND {
          state := ParamNameStart;
          req.uri := req.uri + [c];
          break;
        } else if !IsChar(c) || IsCtl(c) || IsTspecial(c) {
          result := False;
          break;
        } else {
          req.uri := req.uri + [c];
          req.params := AddValue(req.params, c);
        }
        if pos == |input| { break; }
      }
    }

    /** The loop of the state `header_name`. */
    method InHeaderName(req: Request, input: Bytes, begin: nat) returns (result: Tribool, pos: nat)
      requires state == HeaderName && Ready(state, req.Value()) && begin < |input|
      modifies this, req
      ensures begin < pos <= |input|
      ensures Follows(old(Run(state, req.Value(), input[begin..])), result, pos - begin, req, input[pos..])
    {
      hide Run;
      ghost var o := Run(state, req.Value(), input[begin..]);
      result, pos := Indeterminate, begin;
      while true
        invariant begin <= pos < |input| && state == HeaderName && result.Indeterminate?
        invariant Follows(o, result, pos - begin, req, input[pos..])
        decreases |input| - pos
      {
        var c := input[pos];
        assert input[pos..][0] == c && input[pos..][1..] == input[pos + 1..];
        RunStep(state, req.Value(), input[pos..]);
        pos := pos + 1;
        if c == COLON {
          state := SpaceBeforeHeaderValue;
          break;
        } else if !IsChar(c) || IsCtl(c) || IsTspecial(c) {
          result := False;
          break;
        } else {
          req.headers := AddName(req.headers, c);
        }
        if pos == |input| { break; }
      }
    }

    /** The loop of the state `header_value`. */
    method InHeaderValue(req: Request, input: Bytes, begin: nat) returns (result: Tribool, pos: nat)
      requires state == HeaderValue && Ready(state, req.Value()) && begin < |input|
      modifies this, req
      ensures begin < pos <= |input|
      ensures Follows(old(Run(state, req.Value(), input[begin..])), result, pos - begin, req, input[pos..])
    {
      hide Run;
      ghost var o := Run(state, req.Value(), input[begin..]);
      result, pos := Indeterminate, begin;
      while true
        invariant begin <= pos < |input| && state == HeaderValue && result.Indeterminate?
        invariant Follows(o, result, pos - begin, req, input[pos..])
        decreases |input| - pos
      {
        var c := input[pos];
        assert input[pos..][0] == c && input[pos..][1..] == input[pos + 1..];
        RunStep(state, req.Value(), input[pos..]);
        pos := pos + 1;
        if c == CR {
          state := ExpectingNewline2;
          break;
        } else if IsCtl(c) {
          result := False;
          break;
        } else {
          req.headers := AddValue(req.headers, c);
        }
        if pos == |input| { break; }
      }
    }

    /** The states of the version, each of which takes one byte. */
    method OneInVersion(req: Request, c: Byte) returns (result: Tribool)
      requires VersionState(state)
      modifies this, req
      ensures (result, state, req.Value()) == old(StepVersion(state, req.Value(), c))
    {
      result := Indeterminate;
      if state == HttpVersionH {
        if c == 'H' as int {
          state := HttpVersionT1;
        } else {
          result := False;
        }
      } else if state == HttpVersionT1 {
        if c == 'T' as int {
          state := HttpVersionT2;
        } else {
          result := False;
        }
      } else if state == HttpVersionT2 {
        if c == 'T' as int {
          state := HttpVersionP;
        } else {
          result := False;
        }
      } else if state == HttpVersionP {
        if c == 'P' as int {
          state := HttpVersionSlash;
        } else {
          result := False;
        }
      } else if state == HttpVersionSlash {
        if c == SLASH {
          req.major := 0;
          req.minor := 0;
          state := HttpVersionMajorStart;
        } else {
          result := False;
        }
      } else if state == HttpVersionMajorStart {
        if IsDigit(c) {
          req.major := req.major * 10 + c - ZERO;
          state := HttpVersionMajor;
        } else {
          result := False;
        }
      } else if state == HttpVersionMajor {
        if c == DOT {
          state := HttpVersionMinorStart;
        } else if IsDigit(c) {
          req.major := req.major * 10 + c - ZERO;
        } else {
          result := False;
        }
      } else if state == HttpVersionMinorStart {
        if IsDigit(c) {
          req.minor := req.minor * 10 + c - ZERO;
          state := HttpVersionMinor;
        } else {
          result := False;
        }
      } else if state == HttpVersionMinor {
        if c == CR {
          state := ExpectingNewline1;
        } else if IsDigit(c) {
          req.minor := req.minor * 10 + c - ZERO;
        } else {
          result := False;
        }
      } else {
        if c == LF {
          state := HeaderLineStart;
        } else {
          result := False;
        }
      }
    }

    /** The states of the method and the target that take one byte. */
    method OneInTarget(req: Request, c: Byte) returns (result: Tribool)
      requires TargetState(state) && !LoopState(state)
      modifies this, req
      ensures (result, state, req.Value()) == old(StepTarget(state, req.Value(), c))
    {
      result := Indeterminate;
      if state == MethodStart {
        if !IsChar(c) || IsCtl(c) || IsTspecial(c) {
          result := False;
        } else {
          state := Method;
          req.verb := req.verb + [c];
        }
      } else if state == ParamNameStart {
        if c == SPACE {
          state := HttpVersionH;
        } else if !IsChar(c) || IsCtl(c) || IsTspecial(c) {
          result := False;
        } else {
          state := ParamName;
          req.uri := req.uri + [c];
          req.params := req.params + [NameValue([c], [])];
        }
      } else {
        result := False;
      }
    }

    /** The states of the header lines that take one byte. */
    method OneInHeader(req: Request, c: Byte) returns (result: Tribool)
      requires HeaderState(state) && !LoopState(state) && Ready(state, req.Value())
      modifies this, req
      ensures (result, state, req.Value()) == old(StepHeader(state, req.Value(), c))
    {
      result := Indeterminate;
      if state == HeaderLineStart {
        if c == CR {
          state := ExpectingNewline3;
        } else if req.headers != [] && (c == SPACE || c == TAB) {
          state := HeaderLws;
        } else if !IsChar(c) || IsCtl(c) || IsTspecial(c) {
          result := False;
        } else {
          req.headers := req.headers + [NameValue([c], [])];
          state := HeaderName;
        }
      } else if state == HeaderLws {
        if c == CR {
          state := ExpectingNewline2;
        } else if c == SPACE || c == TAB {
        } else if IsCtl(c) {
          result := False;
        } else {
          state := HeaderValue;
          req.headers := AddValue(req.headers, c);
        }
      } else if state == SpaceBeforeHeaderValue {
        if c == SPACE {
          state := HeaderValue;
        } else {
          result := False;
        }
      } else {
        if c == LF {
          state := HeaderLineStart;
        } else {
          result := False;
        }
      }
    }

    /** The end of the headers and the body. */
    method OneInBody(req: Request, c: Byte) returns (result: Tribool)
      requires !TargetState(state) && !VersionState(state) && !HeaderState(state)
      modifies this, req
      ensures (result, state, req.Value()) == old(StepBody(state, req.Value(), c))
    {
      if state == ExpectingNewline3 {
        result := EndOfHeaders(req, c);
      } else if state == ContentStart {
        if req.content != [] {
          result := False;
        } else if !IsChar(c) || IsCtl(c) || IsTspecial(c) {
          result := False;
        } else {
          result := TakeContent(req, c);
          if result.Indeterminate? { state := Content; }
        }
      } else {
        result := TakeContent(req, c);
      }
    }

    /** The end of the headers: a GET is complete, a POST goes on with the body that it announces. */
    method EndOfHeaders(req: Request, c: Byte) returns (result: Tribool)
      requires state == ExpectingNewline3
      modifies this, req
      ensures (result, state, req.Value()) == old(StepBody(state, req.Value(), c))
    {
      if req.verb == GET && c == LF {
        result := True;
      } else if req.verb == POST && c == LF {
        var length := req.Header(CONTENT_LENGTH);
        if length == [] {
          return False;
        }
        LookupAgain(old(req.headers), CONTENT_LENGTH);
        length := req.Header(CONTENT_LENGTH);
        req.contentLength := ToInt(StrToL(length));
        state := ContentStart;
        result := Indeterminate;
      } else {
        result := False;
      }
    }

    /** One byte of the body. */
    method TakeContent(req: Request, c: Byte) returns (result: Tribool)
      modifies req
      ensures var (verdict, _, value) := WithContent(state, old(req.Value()), c); result == verdict && req.Value() == value
    {
      req.contentLength := req.contentLength - 1;
      req.content := req.content + [c];
      if req.contentLength == 0 {
        var length := req.Header(CONTENT_LENGTH);
        req.contentLength := ToInt(StrToL(length));
        return True;
      }
      result := Indeterminate;
    }

    /** One turn of the main loop. */
    method Dispatch(req: Request, input: Bytes, begin: nat) returns (result: Tribool, pos: nat)
      requires Ready(state, req.Value()) && begin < |input|
      modifies this, req
      ensures begin < pos <= |input|
      ensures Follows(old(Run(state, req.Value(), input[begin..])), result, pos - begin, req, input[pos..])
    {
      hide Run, Step, Follows;
      if state == Method {
        result, pos := InMethod(req, input, begin);
      } else if state == Uri {
        result, pos := InUri(req, input, begin);
      } else if state == ParamName {
        result, pos := InParamName(req, input, begin);
      } else if state == ParamValue {
        result, pos := InParamValue(req, input, begin);
      } else if state == HeaderName {
        result, pos := InHeaderName(req, input, begin);
      } else if state == HeaderValue {
        result, pos := InHeaderValue(req, input, begin);
      } else {
        result, pos := InSingle(req, input, begin);
      }
    }

    /**
     `parse`: takes bytes up to a verdict or the end of the input. The verdict, the request, the state and
     the position are those of taking one byte at a time.
     */
    method Parse(req: Request, input: Bytes, begin: nat) returns (result: Tribool, pos: nat)
      requires begin <= |input| && Ready(state, req.Value())
      modifies this, req
      ensures begin <= pos <= |input|
      ensures Outcome(result, state, req.Value(), pos - begin) == old(Run(state, req.Value(), input[begin..]))
      ensures result.Indeterminate? ==> pos == |input| && Ready(state, req.Value())
    {
      hide Step, Run;
      ghost var o := Run(state, req.Value(), input[begin..]);
      result, pos := Indeterminate, begin;
      while pos != |input|
        invariant begin <= pos <= |input| && result.Indeterminate?
        invariant Follows(o, result, pos - begin, req, input[pos..])
        decreases |input| - pos
      {
        result, pos := Dispatch(req, input, pos);
        if result != Indeterminate {
          return;
        }
      }
      RunNothing(state, req.Value(), input[pos..]);
    }

    /** A state that takes one byte a turn. */
    method InSingle(req: Request, input: Bytes, begin: nat) returns (result: Tribool, pos: nat)
      requires !LoopState(state) && Ready(state, req.Value()) && begin < |input|
      modifies this, req
      ensures begin < pos <= |input|
      ensures Follows(old(Run(state, req.Value(), input[begin..])), result, pos - begin, req, input[pos..])
    {
      hide Run, StepTarget, StepVersion, StepHeader, StepBody;
      var c := input[begin];
      assert input[begin..][0] == c && input[begin..][1..] == input[begin + 1..];
      RunStep(state, req.Value(), input[begin..]);
      pos := begin + 1;
      if TargetState(state) {
        result := OneInTarget(req, c);
      } else if VersionState(state) {
        result := OneInVersion(req, c);
      } else if HeaderState(state) {
        result := OneInHeader(req, c);
      } else {
        result := OneInBody(req, c);
      }
    }
  }

  lemma {:induction false} LookupAgain(nvs: seq<NameValue>, name: Bytes)
    ensures Lookup(WithHeader(nvs, name), name) == Lookup(nvs, name)
    ensures WithHeader(WithHeader(nvs, name), name) == WithHeader(nvs, name)
  {
    if !Has(nvs, name) {
      var added := nvs + [NameValue(name, [])];
      assert added[|nvs|].name == name;
      LookupAdded(nvs, name);
    }
  }

  lemma {:induction false} LookupAdded(nvs: seq<NameValue>, name: Bytes)
    requires !Has(nvs, name)
    ensures Lookup(nvs, name) == Lookup(nvs + [NameValue(name, [])], name) == []
  {
    if nvs != [] {
      assert nvs[0].name != name;
      forall i | 0 <= i < |nvs[1..]|
        ensures nvs[1..][i].name != name
      {
        assert nvs[1..][i] == nvs[i + 1];
      }
      LookupAdded(nvs[1..], name);
      assert (nvs + [NameValue(name, [])])[1..] == nvs[1..] + [NameValue(name, [])];
    }
  }

  const NEW_REQUEST := Req([], [], 0, 0, [], [], 0, [])

  /**
   The loop of a connection: chunks are parsed as they arrive, up to a verdict. The verdict, the request
   and the number of bytes taken are those of parsing the whole stream at once, however it was cut.
   */
  method ReadRequest(chunks: seq<Bytes>) returns (result: Tribool, value: Req, used: nat)
    ensures var o := Run(MethodStart, NEW_REQUEST, Concat(chunks));
            result == o.result && value == o.req && used == o.used
  {
    hide Run;
    var parser := new RequestParser();
    var req := new Request();
    result, used := Indeterminate, 0;
    ghost var fed: Bytes := [];
    RunNothing(MethodStart, NEW_REQUEST, []);
    var i := 0;
    while i < |chunks| && result.Indeterminate?
      invariant 0 <= i <= |chunks| && fed == Concat(chunks[..i])
      invariant fresh(parser) && fresh(req)
      invariant result.Indeterminate? ==> Ready(parser.state, req.Value())
      invariant Run(MethodStart, NEW_REQUEST, fed) == Outcome(result, parser.state, req.Value(), used)
    {
      RunSplits(MethodStart, NEW_REQUEST, fed, chunks[i]);
      assert chunks[i][0..] == chunks[i];
      var taken;
      result, taken := parser.Parse(req, chunks[i], 0);
      used := used + taken;
      fed := fed + chunks[i];
      ConcatSnoc(chunks, i);
      i := i + 1;
    }
    RunSplits(MethodStart, NEW_REQUEST, fed, Concat(chunks[i..]));
    ConcatAppend(chunks[..i], chunks[i..]);
    assert chunks[..i] + chunks[i..] == chunks;
    assert i == |chunks| ==> fed + Concat(chunks[i..]) == fed;
    value := Req(req.verb, req.uri, req.major, req.minor, req.headers, req.content, req.contentLength, req.params);
  }
}
