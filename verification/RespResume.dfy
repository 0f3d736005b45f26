/**
 The recursive parser of `Resp.dfy`, suspended: a `Config` is the abstract state of a reader that
 stopped somewhere inside a reply, and `Resume` says what finishing that reply amounts to.
 */
module RespResume {
  import opened ByteStrings
  import opened Resp

  /** An array that is being filled: how many children it has and those already read. */
  datatype Frame = Frame(total: nat, done: seq<Reply>)

  /** The open arrays from the outside in, the type of the current item once read, the unread input. */
  datatype Config = Config(stack: seq<Frame>, ty: Option<ItemType>, input: Bytes)

  /** What is left to do once the current item inside `stack` has the value `r`. */
  function Finish(stack: seq<Frame>, r: Reply, s: Bytes): (o: Outcome<Reply>)
    ensures o.Done? ==> |o.rest| <= |s|
    decreases |stack|
  {
    if stack == [] then Done(r, s) else
    var top := stack[|stack| - 1];
    var missing := top.total - |top.done| - 1;
    var (others, rest) :- ParseElements(s, if missing < 0 then 0 else missing, |stack|);
    Finish(stack[..|stack| - 1], Array(top.done + [r] + others), rest)
  }

  function Resume(c: Config): (o: Outcome<Reply>)
    ensures o.Done? ==> |o.rest| + 2 <= |c.input|
  {
    var (r, rest) :- if c.ty.None? then ParseReply(c.input, |c.stack|) else ParseBody(c.ty.value, c.input, |c.stack|);
    Finish(c.stack, r, rest)
  }

  function Extend(c: Config, t: Bytes): Config {
    c.(input := c.input + t)
  }

  /** The two configurations end in the same way, whatever bytes arrive from now on. */
  ghost predicate Equivalent(c: Config, d: Config) {
    forall t: Bytes :: Resume(Extend(c, t)) == Resume(Extend(d, t))
  }

  lemma ExtendNothing(c: Config)
    ensures Extend(c, []) == c
  {
    assert c.input + [] == c.input;
  }

  /** A type byte that was consumed on its own is remembered, not lost. */
  lemma TypeStep(c: Config)
    requires c.ty.None? && c.input != [] && TypeOf(c.input[0]).Some?
    ensures Equivalent(c, Config(c.stack, TypeOf(c.input[0]), c.input[1..]))
  {
    var d := Config(c.stack, TypeOf(c.input[0]), c.input[1..]);
    forall t: Bytes
      ensures Resume(Extend(c, t)) == Resume(Extend(d, t))
    {
      assert (c.input + t)[1..] == c.input[1..] + t;
    }
  }

  /** The current item is a leaf: what remains is to finish the arrays around it. */
  lemma LeafStep(c: Config, t: Bytes)
    requires c.ty.Some?
    requires var h := ReadHead(c.ty.value, c.input, |c.stack|); h.Done? && h.value.Leaf?
    ensures var h := ReadHead(c.ty.value, c.input, |c.stack|);
            Resume(Extend(c, t)) == Finish(c.stack, h.value.reply, h.rest + t)
  {
    HeadExtends(c.ty.value, c.input, t, |c.stack|);
  }

  /** The current item opens an array: its first child becomes the current item. */
  lemma OpenStep(c: Config)
    requires c.ty.Some?
    requires var h := ReadHead(c.ty.value, c.input, |c.stack|); h.Done? && h.value.Open?
    ensures var h := ReadHead(c.ty.value, c.input, |c.stack|);
            Equivalent(c, Config(c.stack + [Frame(h.value.elements, [])], None, h.rest))
  {
    hide Resume, ReadHead;
    var h := ReadHead(c.ty.value, c.input, |c.stack|);
    var d := Config(c.stack + [Frame(h.value.elements, [])], None, h.rest);
    forall t: Bytes
      ensures Resume(Extend(c, t)) == Resume(Extend(d, t))
    {
      HeadExtends(c.ty.value, c.input, t, |c.stack|);
      OpenNow(Extend(c, t), h.value.elements, h.rest + t);
    }
  }

  /** The array of `done` and of the elements that were read, finished inside `below`. */
  function Filled(below: seq<Frame>, done: seq<Reply>, o: Outcome<seq<Reply>>): Outcome<Reply> {
    var (others, rest) :- o;
    Finish(below, Array(done + others), rest)
  }

  lemma FinishTop(below: seq<Frame>, top: Frame, r: Reply, s: Bytes)
    requires |top.done| < top.total
    ensures Finish(below + [top], r, s) ==
            Filled(below, top.done + [r], ParseElements(s, top.total - |top.done| - 1, |below| + 1))
  {
    hide ParseElements;
    var stack := below + [top];
    assert stack[..|stack| - 1] == below && stack[|stack| - 1] == top;
  }

  lemma FirstElement(s: Bytes, n: nat, depth: nat)
    requires n > 0
    ensures var first := ParseReply(s, depth);
            var o := ParseElements(s, n, depth);
            if !first.Done? then o == (if first.More? then More else Fail(first.error))
            else
              var others := ParseElements(first.rest, n - 1, depth);
              o == if others.Done? then Done([first.value] + others.value, others.rest) else others
  {
    hide ParseReply;
  }

  /** The reader at the next item of an array reads all that are missing. */
  lemma ResumeTop(below: seq<Frame>, top: Frame, s: Bytes)
    requires |top.done| < top.total
    ensures Resume(Config(below + [top], None, s)) ==
            Filled(below, top.done, ParseElements(s, top.total - |top.done|, |below| + 1))
  {
    hide ParseReply, ParseElements, Finish;
    var depth := |below| + 1;
    var first := ParseReply(s, depth);
    FirstElement(s, top.total - |top.done|, depth);
    if first.Done? {
      FinishTop(below, top, first.value, first.rest);
      var others := ParseElements(first.rest, top.total - |top.done| - 1, depth);
      if others.Done? {
        assert top.done + [first.value] + others.value == top.done + ([first.value] + others.value);
      }
    }
  }

  lemma OpenNow(c: Config, n: nat, rest: Bytes)
    requires c.ty.Some? && n > 0 && ReadHead(c.ty.value, c.input, |c.stack|) == Done(Open(n), rest)
    ensures Resume(c) == Resume(Config(c.stack + [Frame(n, [])], None, rest))
  {
    hide ReadHead, ParseElements, Finish;
    ResumeTop(c.stack, Frame(n, []), rest);
    var o := ParseElements(rest, n, |c.stack| + 1);
    assert o.Done? ==> [] + o.value == o.value;
  }

  /** The last child of an array completes the array. */
  lemma PopStep(stack: seq<Frame>, r: Reply, s: Bytes)
    requires stack != [] && |stack[|stack| - 1].done| + 1 == stack[|stack| - 1].total
    ensures Finish(stack, r, s) == Finish(stack[..|stack| - 1], Array(stack[|stack| - 1].done + [r]), s)
  {
    var top := stack[|stack| - 1];
    assert top.done + [r] + [] == top.done + [r];
  }

  /** Any other child makes the next one current. */
  lemma NextStep(stack: seq<Frame>, r: Reply, s: Bytes)
    requires stack != [] && |stack[|stack| - 1].done| + 1 < stack[|stack| - 1].total
    ensures var top := stack[|stack| - 1];
            Finish(stack, r, s) ==
            Resume(Config(stack[..|stack| - 1] + [top.(done := top.done + [r])], None, s))
  {
    hide ParseElements, Finish, Resume;
    var top, below := stack[|stack| - 1], stack[..|stack| - 1];
    assert stack == below + [top];
    FinishTop(below, top, r, s);
    ResumeTop(below, top.(done := top.done + [r]), s);
  }

  // ---------- The same steps over all inputs, as `moveToNextTask` chains them ----------

  /** A finished item `r` in `stack` is as good as a finished item `r'` in `stack'`. */
  ghost predicate SameFinish(stack: seq<Frame>, r: Reply, stack': seq<Frame>, r': Reply) {
    forall s: Bytes :: Finish(stack, r, s) == Finish(stack', r', s)
  }

  /** A finished item `r` in `stack` leaves the reader at the next item of `stack'`. */
  ghost predicate ResumesAt(stack: seq<Frame>, r: Reply, stack': seq<Frame>) {
    forall s: Bytes :: Finish(stack, r, s) == Resume(Config(stack', None, s))
  }

  /** A finished item `r` in `stack` finishes the whole reply. */
  ghost predicate Concludes(stack: seq<Frame>, r: Reply, root: Reply) {
    forall s: Bytes :: Finish(stack, r, s) == Done(root, s)
  }

  lemma SameStart(stack: seq<Frame>, r: Reply)
    ensures SameFinish(stack, r, stack, r)
  {
  }

  lemma SameRoot(stack: seq<Frame>, r: Reply, root: Reply)
    requires SameFinish(stack, r, [], root)
    ensures Concludes(stack, r, root)
  {
    forall s: Bytes
      ensures Finish(stack, r, s) == Done(root, s)
    {
      assert Finish([], root, s) == Done(root, s);
    }
  }

  lemma SamePop(stack: seq<Frame>, r: Reply, stack': seq<Frame>, r': Reply)
    requires SameFinish(stack, r, stack', r')
    requires stack' != [] && |stack'[|stack'| - 1].done| + 1 == stack'[|stack'| - 1].total
    ensures SameFinish(stack, r, stack'[..|stack'| - 1], Array(stack'[|stack'| - 1].done + [r']))
  {
    forall s: Bytes
      ensures Finish(stack, r, s) == Finish(stack'[..|stack'| - 1], Array(stack'[|stack'| - 1].done + [r']), s)
    {
      PopStep(stack', r', s);
    }
  }

  lemma SameNext(stack: seq<Frame>, r: Reply, stack': seq<Frame>, r': Reply)
    requires SameFinish(stack, r, stack', r')
    requires stack' != [] && |stack'[|stack'| - 1].done| + 1 < stack'[|stack'| - 1].total
    ensures var top := stack'[|stack'| - 1];
            ResumesAt(stack, r, stack'[..|stack'| - 1] + [top.(done := top.done + [r'])])
  {
    var top := stack'[|stack'| - 1];
    forall s: Bytes
      ensures Finish(stack, r, s) == Resume(Config(stack'[..|stack'| - 1] + [top.(done := top.done + [r'])], None, s))
    {
      NextStep(stack', r', s);
    }
  }

  /** An item that lacks input leaves the whole reply lacking input. */
  lemma Starved(c: Config)
    requires if c.ty.None? then c.input == [] else ReadHead(c.ty.value, c.input, |c.stack|).More?
    ensures Resume(c).More?
  {
  }

  /** A reader that waits for more input is not at an array that is nested too deep. */
  lemma WaitsInReach(c: Config)
    requires Resume(c).More?
    ensures !(c.ty == Some(ArrayItem) && |c.stack| == MAX_DEPTH)
  {
  }

  /** However the input goes on, `before` has the finished item `r` in `stack` and the input `rest`. */
  ghost predicate LeafRead(before: Config, stack: seq<Frame>, r: Reply, rest: Bytes) {
    forall t: Bytes :: Resume(Extend(before, t)) == Finish(stack, r, rest + t)
  }

  lemma LeafReads(c: Config)
    requires c.ty.Some?
    requires var h := ReadHead(c.ty.value, c.input, |c.stack|); h.Done? && h.value.Leaf?
    ensures var h := ReadHead(c.ty.value, c.input, |c.stack|); LeafRead(c, c.stack, h.value.reply, h.rest)
  {
    var h := ReadHead(c.ty.value, c.input, |c.stack|);
    forall t: Bytes
      ensures Resume(Extend(c, t)) == Finish(c.stack, h.value.reply, h.rest + t)
    {
      LeafStep(c, t);
    }
  }

  lemma LeafThenNext(before: Config, stack: seq<Frame>, r: Reply, rest: Bytes, stack': seq<Frame>)
    requires LeafRead(before, stack, r, rest) && ResumesAt(stack, r, stack')
    ensures Equivalent(before, Config(stack', None, rest))
  {
    forall t: Bytes
      ensures Resume(Extend(before, t)) == Resume(Extend(Config(stack', None, rest), t))
    {
      var s: Bytes := rest + t;
      assert Finish(stack, r, s) == Resume(Config(stack', None, s));
    }
  }

  /** However the input goes on, `before` ends in the reply `r` with `rest` and what follows left over. */
  ghost predicate Ends(before: Config, r: Reply, rest: Bytes) {
    forall t: Bytes :: Resume(Extend(before, t)) == Done(r, rest + t)
  }

  lemma LeafThenRoot(before: Config, stack: seq<Frame>, r: Reply, rest: Bytes, root: Reply)
    requires LeafRead(before, stack, r, rest) && Concludes(stack, r, root)
    ensures Ends(before, root, rest)
  {
    forall t: Bytes
      ensures Resume(Extend(before, t)) == Done(root, rest + t)
    {
      var s: Bytes := rest + t;
      assert Finish(stack, r, s) == Done(root, s);
    }
  }

  /** However the input goes on, `before` ends in the protocol error `e`. */
  ghost predicate Fails(before: Config, e: ProtocolError) {
    forall t: Bytes :: Resume(Extend(before, t)) == Fail(e)
  }

  /** A refused item refuses the whole reply. */
  lemma Refused(c: Config)
    requires c.ty.Some? && ReadHead(c.ty.value, c.input, |c.stack|).Fail?
    ensures Fails(c, ReadHead(c.ty.value, c.input, |c.stack|).error)
  {
    forall t: Bytes
      ensures Resume(Extend(c, t)) == Fail(ReadHead(c.ty.value, c.input, |c.stack|).error)
    {
      HeadExtends(c.ty.value, c.input, t, |c.stack|);
    }
  }

  lemma RefusedType(c: Config)
    requires c.ty.None? && c.input != [] && TypeOf(c.input[0]).None?
    ensures Fails(c, BadTypeByte(c.input[0]))
  {
    forall t: Bytes
      ensures Resume(Extend(c, t)) == Fail(BadTypeByte(c.input[0]))
    {
      assert (c.input + t)[0] == c.input[0];
    }
  }

  // ---------- Chaining ----------

  lemma EquivalentRefl(c: Config)
    ensures Equivalent(c, c)
  {
  }

  lemma EquivalentTrans(c: Config, d: Config, e: Config)
    requires Equivalent(c, d) && Equivalent(d, e)
    ensures Equivalent(c, e)
  {
    forall t: Bytes
      ensures Resume(Extend(c, t)) == Resume(Extend(e, t))
    {
      assert Resume(Extend(c, t)) == Resume(Extend(d, t));
    }
  }

  lemma EquivalentEnds(c: Config, d: Config, r: Reply, rest: Bytes)
    requires Equivalent(c, d) && Ends(d, r, rest)
    ensures Ends(c, r, rest)
  {
    forall t: Bytes
      ensures Resume(Extend(c, t)) == Done(r, rest + t)
    {
      assert Resume(Extend(c, t)) == Resume(Extend(d, t));
    }
  }

  lemma EquivalentFails(c: Config, d: Config, e: ProtocolError)
    requires Equivalent(c, d) && Fails(d, e)
    ensures Fails(c, e)
  {
    forall t: Bytes
      ensures Resume(Extend(c, t)) == Fail(e)
    {
      assert Resume(Extend(c, t)) == Resume(Extend(d, t));
    }
  }

  /** Equivalence says in particular what happens when no more input comes. */
  lemma EquivalentNow(c: Config, d: Config)
    requires Equivalent(c, d)
    ensures Resume(c) == Resume(d)
  {
    ExtendNothing(c);
    ExtendNothing(d);
    assert Resume(Extend(c, [])) == Resume(Extend(d, []));
  }

  lemma EndsNow(c: Config, r: Reply, rest: Bytes)
    requires Ends(c, r, rest)
    ensures Resume(c) == Done(r, rest)
  {
    ExtendNothing(c);
    assert rest + [] == rest;
    assert Resume(Extend(c, [])) == Done(r, rest + []);
  }

  // ---------- A whole stream ----------

  /** The replies that a suspended reader has yet to deliver from the input it holds, and the first error. */
  function Remaining(c: Config): (seq<Reply>, Option<ProtocolError>) {
    match Resume(c)
    case Done(r, rest) => var s := ParseStream(rest); ([r] + s.replies, s.error)
    case More => ([], None)
    case Fail(e) => ([], Some(e))
  }

  /** After `fed` bytes and `replies`, the configuration `c` still delivers all the rest of the stream, whatever it is. */
  ghost predicate Delivered(fed: Bytes, replies: seq<Reply>, c: Config) {
    forall t: Bytes ::
      var s, (rs, e) := ParseStream(fed + t), Remaining(Extend(c, t));
      s.replies == replies + rs && s.error == e
  }

  lemma DeliveredStart()
    ensures Delivered([], [], Config([], None, []))
  {
    forall t: Bytes
      ensures var s, (rs, e) := ParseStream([] + t), Remaining(Extend(Config([], None, []), t));
              s.replies == [] + rs && s.error == e
    {
      assert [] + t == t;
      assert ParseStream(t).replies == [] + ParseStream(t).replies;
    }
  }

  lemma DeliveredFeed(fed: Bytes, replies: seq<Reply>, c: Config, bytes: Bytes)
    requires Delivered(fed, replies, c)
    ensures Delivered(fed + bytes, replies, Extend(c, bytes))
  {
    forall t: Bytes
      ensures var s, (rs, e) := ParseStream(fed + bytes + t), Remaining(Extend(Extend(c, bytes), t));
              s.replies == replies + rs && s.error == e
    {
      assert fed + bytes + t == fed + (bytes + t);
      assert c.input + bytes + t == c.input + (bytes + t);
      assert Extend(Extend(c, bytes), t) == Extend(c, bytes + t);
    }
  }

  lemma DeliveredReply(fed: Bytes, replies: seq<Reply>, c: Config, r: Reply, rest: Bytes)
    requires Delivered(fed, replies, c) && Ends(c, r, rest)
    ensures Delivered(fed, replies + [r], Config([], None, rest))
  {
    var d := Config([], None, rest);
    forall t: Bytes
      ensures var s, (rs, e) := ParseStream(fed + t), Remaining(Extend(d, t));
              s.replies == replies + [r] + rs && s.error == e
    {
      var s := ParseStream(rest + t);
      assert Resume(Extend(c, t)) == Done(r, rest + t);
      assert Remaining(Extend(c, t)) == ([r] + s.replies, s.error);
      assert Remaining(Extend(d, t)) == (s.replies, s.error);
      assert replies + ([r] + s.replies) == replies + [r] + s.replies;
    }
  }

  lemma DeliveredWait(fed: Bytes, replies: seq<Reply>, c: Config, d: Config)
    requires Delivered(fed, replies, c) && Equivalent(c, d)
    ensures Delivered(fed, replies, d)
  {
    forall t: Bytes
      ensures var s, (rs, e) := ParseStream(fed + t), Remaining(Extend(d, t));
              s.replies == replies + rs && s.error == e
    {
      assert Resume(Extend(c, t)) == Resume(Extend(d, t));
      assert Remaining(Extend(c, t)) == Remaining(Extend(d, t));
    }
  }

  lemma DeliveredMore(fed: Bytes, replies: seq<Reply>, c: Config)
    requires Delivered(fed, replies, c) && Resume(c).More?
    ensures var s := ParseStream(fed); s.replies == replies && s.error == None
  {
    ExtendNothing(c);
    assert fed + [] == fed;
    assert ParseStream(fed + []).replies == replies + Remaining(Extend(c, [])).0;
    assert replies + [] == replies;
  }

  lemma DeliveredError(fed: Bytes, replies: seq<Reply>, c: Config, e: ProtocolError)
    requires Delivered(fed, replies, c) && Fails(c, e)
    ensures var s := ParseStream(fed); s.replies == replies && s.error == Some(e)
  {
    assert fed + [] == fed;
    assert Resume(Extend(c, [])) == Fail(e);
    assert ParseStream(fed + []).replies == replies + Remaining(Extend(c, [])).0;
    assert replies + [] == replies;
  }
}
