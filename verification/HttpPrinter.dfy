/** A printer for requests, and the proof that the parser undoes it. */
module HttpPrinter {
  import opened ByteStrings
  import opened HttpSyntax
  import opened HttpRequestParser
  import opened HttpGrammar
  import opened SdsNumbers

  /** A request to be printed; only a POST has a body. */
  datatype Message = Message(
    post: bool,
    path: Bytes,
    params: seq<NameValue>,
    major: nat,
    minor: nat,
    headers: seq<NameValue>,
    body: Bytes)

  /** The body of a POST is announced by its length in decimal digits. */
  predicate Printable(m: Message) {
    && PlainPath(m.path)
    && (forall p | p in m.params :: PlainParam(p))
    && (forall h | h in m.headers :: PlainHeader(h))
    && if m.post then 0 < |m.body| < TWO_31 && Lookup(m.headers, CONTENT_LENGTH) == Decimal(|m.body|) else m.body == []
  }

  predicate WellFormed(m: Message) {
    Printable(m) && (m.post ==> IsTokenChar(m.body[0]))
  }

  // ---------- Printing ----------

  function Verb(m: Message): Bytes {
    if m.post then POST else GET
  }

  function Fields(headers: seq<NameValue>): seq<Line> {
    if headers == [] then [] else [Field(headers[0])] + Fields(headers[1..])
  }

  /** The text of a message in the language of the parser: every parameter with its equals sign, no folded lines, no leading zeros. */
  function Form(m: Message): Source {
    var n := |m.params| - 1;
    Source(Verb(m), m.path, if m.params == [] then None else Some(Query(m.params[..n], Full(m.params[n]))),
           Decimal(m.major), Decimal(m.minor), Fields(m.headers), m.body)
  }

  function Print(m: Message): Bytes {
    Text(Form(m))
  }

  /** The request that a message stands for. */
  function Meaning(m: Message): Req {
    Req(Verb(m), TargetText(Form(m)), m.major, m.minor, m.headers, m.body, |m.body|, m.params)
  }

  // ---------- Numbers ----------

  lemma {:induction false} MagnitudeAppend(a: Bytes, d: Byte, v: nat)
    requires (forall c | c in a :: IsDigit(c)) && IsDigit(d)
    ensures Magnitude(a + [d], 10, v) == 10 * Magnitude(a, 10, v) + (d - ZERO)
    decreases |a|
  {
    if a == [] {
      assert a + [d] == [d] && [d][1..] == [];
      assert Magnitude([], 10, 10 * v + (d - ZERO)) == 10 * v + (d - ZERO);
    } else {
      assert (a + [d])[1..] == a[1..] + [d] && (a + [d])[0] == a[0];
      assert a[0] in a;
      MagnitudeAppend(a[1..], d, v * 10 + DigitValue(a[0]));
    }
  }

  lemma {:induction false} MagnitudeDecimal(n: nat)
    ensures Magnitude(Decimal(n), 10, 0) == n
  {
    if n < 10 {
      assert [ZERO + n][1..] == [];
      assert Magnitude([], 10, n) == n;
    } else {
      MagnitudeDecimal(n / 10);
      MagnitudeAppend(Decimal(n / 10), ZERO + n % 10, 0);
    }
  }

  lemma {:induction false} NoLeadingZero(n: nat)
    requires n > 0
    ensures Decimal(n)[0] != ZERO
  {
    if n >= 10 { NoLeadingZero(n / 10); }
  }

  /** A decimal length is read back although the base is left to be guessed. */
  lemma LengthRead(n: nat)
    requires 0 < n < TWO_31
    ensures ToInt(StrToL(Decimal(n))) == n
  {
    var s := Decimal(n);
    assert s[0] in s;
    NoLeadingZero(n);
    MagnitudeDecimal(n);
    assert SkipSpaces(s) == s;
  }

  // ---------- The round trip ----------

  lemma DecimalAnnounces(headers: seq<NameValue>, n: nat)
    requires 0 < n < TWO_31 && Lookup(headers, CONTENT_LENGTH) == Decimal(n)
    ensures Announced(headers) == n
  {
    hide StrToL;
    LengthRead(n);
  }

  lemma {:induction false} FieldsPlain(headers: seq<NameValue>)
    requires forall h | h in headers :: PlainHeader(h)
    ensures PlainLines(Fields(headers))
  {
    hide PlainHeader;
    if headers != [] {
      FieldsPlain(headers[1..]);
    }
  }

  lemma {:induction false} FieldsAdded(before: seq<NameValue>, headers: seq<NameValue>)
    ensures AddLines(before, Fields(headers)) == before + headers
    decreases |headers|
  {
    if headers == [] {
      assert before + [] == before;
    } else {
      assert ([Field(headers[0])] + Fields(headers[1..]))[1..] == Fields(headers[1..]);
      FieldsAdded(before + [headers[0]], headers[1..]);
      assert before + [headers[0]] + headers[1..] == before + headers;
    }
  }

  lemma VerbPlain(m: Message)
    ensures IsToken(Verb(m)) && GET != POST
  {
    assert GET[0] != POST[0];
  }

  lemma FormQuery(m: Message)
    requires forall p | p in m.params :: PlainParam(p)
    ensures Form(m).query.Some? ==> PlainQuery(Form(m).query.value)
    ensures Params(Form(m)) == m.params
  {
    hide PlainParam, Fields, Decimal;
    if m.params != [] {
      var n := |m.params| - 1;
      assert m.params[..n] + [m.params[n]] == m.params;
    }
  }

  lemma FormHead(m: Message)
    requires Printable(m)
    ensures PlainHead(Form(m)) && HeadRequest(Form(m)) == Meaning(m).(content := [], contentLength := 0)
  {
    hide PlainHeader, PlainParam, PlainPath, TargetText, IsToken, Lookup, PlainLines, Magnitude, PlainQuery, Params;
    VerbPlain(m);
    MagnitudeDecimal(m.major);
    MagnitudeDecimal(m.minor);
    FieldsPlain(m.headers);
    FieldsAdded([], m.headers);
    assert [] + m.headers == m.headers;
    FormQuery(m);
  }

  /**
   The parser undoes the printer: a well-formed request followed by anything is accepted, exactly its
   bytes are taken, and the method, target, parameters, version, headers and body come back.
   */
  lemma RoundTrip(m: Message, rest: Bytes)
    requires WellFormed(m)
    ensures var o := Run(MethodStart, NEW_REQUEST, Print(m) + rest);
            o.result == True && o.used == |Print(m)| && o.req == Meaning(m)
  {
    hide Run, PlainHead, Text, TargetText, PlainHeader, PlainParam, PlainPath, Announced, HeadRequest;
    FormHead(m);
    assert Form(m).body == m.body && Form(m).verb == Verb(m);
    FieldsAdded([], m.headers);
    assert [] + m.headers == m.headers;
    if m.post { DecimalAnnounces(m.headers, |m.body|); }
    Accepted(Form(m), rest);
  }

  /** With everything else in order, it is the first byte of the body that decides: any byte of no token is refused. */
  lemma FirstBodyByte(m: Message, rest: Bytes)
    requires Printable(m)
    ensures Run(MethodStart, NEW_REQUEST, Print(m) + rest).result ==
            if m.post && !IsTokenChar(m.body[0]) then False else True
  {
    hide Leads, Run, PlainHead, HeadText, TargetText, PlainHeader, PlainParam, PlainPath, Announced, HeadRequest, StrToL;
    if WellFormed(m) {
      RoundTrip(m, rest);
    } else {
      var r := Meaning(m).(content := [], contentLength := 0);
      var r' := r.(contentLength := |m.body|);
      var tail := m.body + rest;
      FormHead(m);
      HeadRead(Form(m));
      DecimalAnnounces(m.headers, |m.body|);
      PostEnd(r);
      LeadsOn(MethodStart, NEW_REQUEST, HeadText(Form(m)), HeaderLineStart, r, CRLF, ContentStart, r');
      LeadsThenVerdict(MethodStart, NEW_REQUEST, HeadText(Form(m)) + CRLF, ContentStart, r', tail);
      RunStep(ContentStart, r', tail);
      assert Print(m) + rest == HeadText(Form(m)) + CRLF + tail;
    }
  }
}
