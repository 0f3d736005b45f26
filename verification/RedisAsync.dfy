/**
 The asynchronous context of `async.c`: a linked callback list and a set of flags. Every operation is
 held to the function of the same name in `AsyncModel`; callbacks call back into the context.
 */
module RedisAsync {
  import opened ByteStrings
  import opened Resp
  import opened AsyncModel
  import AsyncCalls

  class CallbackNode {
    var next: CallbackNode?
    const cb: Cb

    constructor (cb: Cb)
      ensures this.cb == cb && next == null
    {
      this.cb, next := cb, null;
    }
  }

  /** The callbacks of a list of nodes. */
  function Cbs(nodes: seq<CallbackNode>): (r: seq<Cb>)
    ensures |r| == |nodes|
    ensures forall i | 0 <= i < |nodes| :: r[i] == nodes[i].cb
  {
    seq(|nodes|, i requires 0 <= i < |nodes| => nodes[i].cb)
  }

  /** A singly linked list with a head and a tail, seen as a queue. */
  class CallbackList {
    var head: CallbackNode?
    var tail: CallbackNode?
    ghost var nodes: seq<CallbackNode>

    ghost predicate Valid()
      reads this, nodes
    {
      && (nodes == [] ==> head == null && tail == null)
      && (nodes != [] ==> head == nodes[0] && tail == nodes[|nodes| - 1] && tail.next == null)
      && (forall i | 0 <= i < |nodes| - 1 :: nodes[i].next == nodes[i + 1])
      && (forall i, j | 0 <= i < j < |nodes| :: nodes[i] != nodes[j])
    }

    ghost function Contents(): seq<Cb>
      reads this
    {
      Cbs(nodes)
    }

    lemma HeadTells()
      requires Valid()
      ensures head == null <==> Contents() == []
    {
    }

    constructor ()
      ensures Valid() && nodes == []
    {
      head, tail, nodes := null, null, [];
    }

    /** `__redisPushCallback` */
    method Push(source: Cb) returns (ghost node: CallbackNode)
      requires Valid()
      modifies this, nodes
      ensures Valid() && fresh(node) && nodes == old(nodes) + [node]
      ensures Contents() == old(Contents()) + [source]
    {
      var cb := new CallbackNode(source);
      if head == null {
        head := cb;
      }
      if tail != null {
        tail.next := cb;
      }
      tail := cb;
      node := cb;
      nodes := nodes + [cb];
    }

    /** `__redisShiftCallback` */
    method Shift() returns (target: Option<Cb>)
      requires Valid()
      modifies this
      ensures Valid() && forall n | n in nodes :: n in old(nodes)
      ensures old(Contents()) == [] ==> target == None && Contents() == []
      ensures old(Contents()) != [] ==> target == Some(old(Contents())[0]) && Contents() == old(Contents())[1..]
    {
      var cb := head;
      if cb == null {
        return None;
      }
      head := cb.next;
      if cb == tail {
        tail := null;
      }
      nodes := nodes[1..];
      target := Some(cb.cb);
    }
  }

  /** A drained callback leaves the queue shorter and no callback running. */
  lemma RunsOutOfCallbacks(user: User, s: Ctx)
    requires Closing(s) && s.queue != [] && !s.inCallback
    ensures var t := RunCallback(user, s.(queue := s.queue[1..]), s.queue[0], None);
            && t.queue == s.queue[1..] && !t.inCallback && Closing(t)
            && Drain(user, s) == Drain(user, t)
  {
    CallbackWhileClosing(user, s.(queue := s.queue[1..]), s.queue[0], None);
    CallbackGrows(user, s.(queue := s.queue[1..]), s.queue[0], None);
  }

  /** The state once a reply and the callback of its command are taken. */
  ghost function AfterShift(s: Ctx): Ctx
    requires s.inbox != [] && s.queue != []
  {
    s.(inbox := s.inbox[1..], queue := s.queue[1..], received := s.received + [s.inbox[0]])
  }

  lemma ReplyStep(user: User, s: Ctx)
    requires s.inbox != [] && s.queue != [] && !s.inCallback
    ensures var t := RunCallback(user, AfterShift(s), s.queue[0], Some(s.inbox[0]));
            && t.inbox == s.inbox[1..] && !t.inCallback
            && (!s.queue[0].fn ==> t == AfterShift(s))
            && AsyncModel.ProcessCallbacks(user, s) ==
               if s.queue[0].fn && t.freeing then AsyncModel.Teardown(user, t) else AsyncModel.ProcessCallbacks(user, t)
  {
    ProcessStep(user, s);
    NoCallback(user, AfterShift(s), s.queue[0], Some(s.inbox[0]));
    CallbackEnds(user, AfterShift(s), s.queue[0], Some(s.inbox[0]));
    hide RunCallback, AsyncModel.Teardown, AsyncModel.ProcessCallbacks, Quiet;
  }

  lemma CallbackEnds(user: User, s: Ctx, cb: Cb, reply: Option<Reply>)
    requires !s.inCallback
    ensures !RunCallback(user, s, cb, reply).inCallback
  {
    hide Perform;
  }

  lemma UnsolicitedStep(user: User, s: Ctx)
    requires s.inbox != [] && s.queue == []
    ensures AsyncModel.ProcessCallbacks(user, s) ==
            var s1 := s.(inbox := s.inbox[1..]);
            if s.inbox[0].Error? then AsyncModel.DisconnectNow(user, s1.(err := true)) else s1.(unsolicitedAssert := true)
  {
  }

  class AsyncContext {
    var connected: bool
    var disconnecting: bool
    var freeing: bool
    var inCallback: bool
    var err: bool
    const replies: CallbackList
    var obuf: Bytes
    /** stand for the reader of the context: what it will deliver, and whether it then reports an error */
    var inbox: seq<Reply>
    var broken: bool
    var uncleanAssert: bool
    var unsolicitedAssert: bool
    /** the number of accepted commands, which is the private data of the next callback */
    var submitted: nat
    /** what a callback does when it runs */
    const user: User
    ghost var accepted: seq<Cb>
    ghost var commands: seq<Bytes>
    ghost var received: seq<Reply>
    ghost var log: seq<Event>
    ghost var Repr: set<object>

    ghost predicate Valid()
      reads this, Repr
    {
      && this in Repr && replies in Repr && this as object != replies
      && (forall n | n in replies.nodes :: n in Repr)
      && replies.Valid() && submitted == |accepted|
    }

    ghost function Value(): Ctx
      reads this, replies
    {
      Ctx(connected, disconnecting, freeing, inCallback, err, replies.Contents(), obuf, inbox, broken,
          uncleanAssert, unsolicitedAssert, accepted, commands, received, log)
    }

    constructor (user: User)
      ensures Valid() && fresh(Repr) && Value() == START && this.user == user
    {
      connected, disconnecting, freeing, inCallback, err := false, false, false, false, false;
      var list := new CallbackList();
      replies := list;
      obuf, inbox, broken := [], [], false;
      uncleanAssert, unsolicitedAssert, submitted := false, false, 0;
      this.user := user;
      accepted, commands, received, log := [], [], [], [];
      Repr := {this, list};
    }

    /** Registers a callback. */
    method PushReply(cb: Cb)
      requires Valid()
      modifies replies, replies.nodes, `Repr
      ensures Valid() && old(Repr) <= Repr && fresh(Repr - old(Repr))
      ensures Value() == old(Value()).(queue := old(Value()).queue + [cb])
    {
      hide Cbs;
      ghost var node := replies.Push(cb);
      Repr := Repr + {node};
    }

    /** `__redisAsyncCommand` for an ordinary command */
    method Command(fn: bool, cmd: Bytes) returns (ok: bool)
      requires Valid()
      modifies Repr
      ensures Valid() && fresh(Repr - old(Repr))
      ensures ok == !old(Closing(Value())) && Value() == Submit(old(Value()), fn, cmd)
    {
      hide Cbs, CallbackList.Valid;
      if disconnecting || freeing { return false; }
      var cb := Cb(submitted, fn);
      PushReply(cb);
      submitted := submitted + 1;
      accepted, commands := accepted + [cb], commands + [cmd];
      obuf := obuf + cmd;
      ok := true;
    }

    /** Takes the callback of the oldest command whose reply is due. */
    method ShiftReply() returns (next: Option<Cb>)
      requires Valid()
      modifies replies
      ensures Valid()
      ensures old(Value()).queue == [] ==> next == None && Value() == old(Value())
      ensures old(Value()).queue != [] ==>
                next == Some(old(Value()).queue[0]) && Value() == old(Value()).(queue := old(Value()).queue[1..])
    {
      next := replies.Shift();
    }

    /** `__redisRunCallback` */
    method RunCb(cb: Cb, reply: Option<Reply>)
      requires Valid() && !inCallback
      modifies Repr
      ensures Valid() && fresh(Repr - old(Repr))
      ensures Value() == RunCallback(user, old(Value()), cb, reply)
      decreases 1, 1
    {
      hide Cbs, Perform, CallbackList.Valid;
      if !cb.fn { return; }
      ghost var s := Value();
      inCallback := true;
      log := log + [Called(cb.id, reply)];
      ghost var s1 := s.(inCallback := true, log := s.log + [Called(cb.id, reply)]);
      assert Value() == s1;
      MakeCalls(user(cb.id, reply));
      ghost var s2 := Value();
      inCallback := false;
      assert Value() == s2.(inCallback := false);
    }

    /** The body of a callback. */
    method MakeCalls(calls: seq<Call>)
      requires Valid() && inCallback
      modifies Repr
      ensures Valid() && fresh(Repr - old(Repr))
      ensures Value() == Perform(old(Value()), calls)
      decreases 1, 0
    {
      hide Submit;
      ghost var s := Value();
      var i := 0;
      assert calls[0..] == calls;
      while i < |calls|
        invariant 0 <= i <= |calls| && Valid() && fresh(Repr - old(Repr)) && inCallback
        invariant Perform(Value(), calls[i..]) == Perform(s, calls)
      {
        assert calls[i..][0] == calls[i] && calls[i..][1..] == calls[i + 1..];
        PerformOneGrows(Value(), calls[i]);
        MakeCall(calls[i]);
        i := i + 1;
      }
    }

    method MakeCall(call: Call)
      requires Valid() && inCallback
      modifies Repr
      ensures Valid() && fresh(Repr - old(Repr))
      ensures Value() == PerformOne(old(Value()), call)
      decreases 0, 5
    {
      hide Submit;
      match call
      case Command(fn, cmd) => var _ := Command(fn, cmd);
      case Disconnect => AsyncDisconnect();
      case Free => AsyncFree();
    }

    /** `__redisAsyncFree` */
    method FreeNow()
      requires Valid() && !inCallback && Closing(Value())
      modifies Repr
      ensures Valid() && fresh(Repr - old(Repr))
      ensures Value() == Teardown(user, old(Value()))
      decreases 1, 2
    {
      hide RunCallback, Grows, Cbs, CallbackList.Valid;
      ghost var s := Value();
      while true
        invariant Valid() && fresh(Repr - old(Repr)) && !inCallback && Closing(Value())
        invariant Drain(user, Value()) == Drain(user, s)
        decreases |Value().queue|
      {
        ghost var t := Value();
        var next := ShiftReply();
        if next.None? { break; }
        RunsOutOfCallbacks(user, t);
        RunCb(next.value, None);
      }
      log := log + [Released(inCallback)];
    }

    /** `redisAsyncFree`: in a callback, freeing is left to whoever runs the callback. */
    method AsyncFree()
      requires Valid()
      modifies Repr
      ensures Valid() && fresh(Repr - old(Repr))
      ensures Value() == if old(inCallback) then old(Value()).(freeing := true) else AsyncModel.AsyncFree(user, old(Value()))
      decreases if inCallback then 0 else 1, 3
    {
      freeing := true;
      if !inCallback {
        FreeNow();
      }
    }

    /** `__redisAsyncDisconnect` */
    method DisconnectNow()
      requires Valid() && !inCallback && (err || Closing(Value()))
      modifies Repr
      ensures Valid() && fresh(Repr - old(Repr))
      ensures Value() == AsyncModel.DisconnectNow(user, old(Value()))
      decreases 1, 3
    {
      hide Cbs, CallbackList.Valid, Drain;
      replies.HeadTells();
      if !err {
        if replies.head != null {
          uncleanAssert := true;
          return;
        }
      } else {
        disconnecting := true;
      }
      FreeNow();
    }

    /** `redisAsyncDisconnect`: in a callback or while replies are due, the disconnect is deferred. */
    method AsyncDisconnect()
      requires Valid()
      modifies Repr
      ensures Valid() && fresh(Repr - old(Repr))
      ensures Value() ==
              if old(inCallback) then old(Value()).(disconnecting := true) else AsyncModel.AsyncDisconnect(user, old(Value()))
      decreases if inCallback then 0 else 1, 4
    {
      hide Cbs, CallbackList.Valid, Drain;
      disconnecting := true;
      replies.HeadTells();
      if !inCallback && replies.head == null {
        DisconnectNow();
      }
    }

    /** `redisProcessCallbacks` */
    method ProcessCallbacks()
      requires Valid() && !inCallback
      modifies Repr
      ensures Valid() && fresh(Repr - old(Repr))
      ensures Value() == AsyncModel.ProcessCallbacks(user, old(Value()))
    {
      hide RunCallback, Drain, AsyncModel.DisconnectNow, AsyncModel.Teardown, Cbs, CallbackList.Valid;
      ghost var s := Value();
      while inbox != []
        invariant Valid() && fresh(Repr - old(Repr)) && !inCallback
        invariant AsyncModel.ProcessCallbacks(user, Value()) == AsyncModel.ProcessCallbacks(user, s)
        decreases |inbox|
      {
        var done := ProcessReply();
        if done { return; }
      }
      replies.HeadTells();
      if broken {
        err := true;
        DisconnectNow();
      } else if disconnecting && obuf == [] && replies.head == null {
        DisconnectNow();
      }
    }

    /** One turn of the loop, with a reply at hand; the result says whether the loop is left. */
    method ProcessReply() returns (done: bool)
      requires Valid() && !Value().inCallback && Value().inbox != []
      modifies Repr
      ensures Valid() && fresh(Repr - old(Repr))
      ensures if done then Value() == AsyncModel.ProcessCallbacks(user, old(Value()))
              else !Value().inCallback && |Value().inbox| < |old(Value()).inbox| &&
                   AsyncModel.ProcessCallbacks(user, Value()) == AsyncModel.ProcessCallbacks(user, old(Value()))
    {
      hide *;
      ghost var s := Value();
      var reply, cb := TakeReply();
      if cb.None? {
        UnsolicitedStep(user, s);
        Unsolicited(reply);
        done := true;
      } else {
        ReplyStep(user, s);
        done := Answer(cb.value, reply);
      }
    }

    /** Takes the next reply and the callback that it is for. */
    method TakeReply() returns (reply: Reply, cb: Option<Cb>)
      requires Valid() && Value().inbox != []
      modifies Repr
      ensures Valid() && Repr == old(Repr)
      ensures var s := old(Value());
              && reply == s.inbox[0] && Value().inCallback == s.inCallback
              && if s.queue == [] then cb == None && Value() == s.(inbox := s.inbox[1..])
                 else cb == Some(s.queue[0]) && Value() == AfterShift(s)
    {
      hide Value, Cbs, CallbackList.Valid;
      reply := PopInbox();
      cb := ShiftReply();
      if cb.Some? {
        Record(reply);
      }
    }

    /** The reader hands out a reply. */
    method PopInbox() returns (reply: Reply)
      requires Valid() && Value().inbox != []
      modifies `inbox
      ensures Valid()
      ensures reply == old(Value()).inbox[0] && Value() == old(Value()).(inbox := old(Value()).inbox[1..])
    {
      reply := inbox[0];
      inbox := inbox[1..];
    }

    /** Notes a reply that answers a command. */
    ghost method Record(reply: Reply)
      requires Valid()
      modifies `received
      ensures Valid() && Value() == old(Value()).(received := old(Value()).received + [reply])
    {
      received := received + [reply];
    }

    /** Runs the callback of a reply; the result says whether it freed the context. */
    method Answer(cb: Cb, reply: Reply) returns (freed: bool)
      requires Valid() && !Value().inCallback
      modifies Repr
      ensures Valid() && fresh(Repr - old(Repr))
      ensures var t := RunCallback(user, old(Value()), cb, Some(reply));
              freed == (cb.fn && t.freeing) && Value() == if freed then AsyncModel.Teardown(user, t) else t
    {
      hide AsyncModel.Teardown, Cbs, CallbackList.Valid, Perform;
      CallbackGrows(user, Value(), cb, Some(reply));
      freed := false;
      if cb.fn {
        RunCb(cb, Some(reply));
        if freeing {
          FreeNow();
          freed := true;
        }
      }
    }

    /** A reply that no command waits for. */
    method Unsolicited(reply: Reply)
      requires Valid() && !Value().inCallback
      modifies Repr
      ensures Valid() && fresh(Repr - old(Repr))
      ensures Value() ==
              if reply.Error? then AsyncModel.DisconnectNow(user, old(Value()).(err := true))
              else old(Value()).(unsolicitedAssert := true)
    {
      hide AsyncModel.DisconnectNow, Cbs, CallbackList.Valid;
      if reply.Error? {
        err := true;
        DisconnectNow();
      } else {
        unsolicitedAssert := true;
      }
    }

    /** `__redisAsyncHandleConnect` */
    method HandleConnect(c: Connecting) returns (ok: bool)
      requires Valid() && !inCallback
      modifies Repr
      ensures Valid() && fresh(Repr - old(Repr))
      ensures ok == !c.Refused? && (ok ==> !inCallback)
      ensures Value() == AsyncModel.HandleConnect(user, old(Value()), c)
    {
      hide AsyncModel.DisconnectNow, Cbs, CallbackList.Valid;
      ok := true;
      match c
      case InProgress => err := true;
      case Refused =>
        err := true;
        DisconnectNow();
        ok := false;
      case Established => connected := true;
    }

    /** `redisAsyncHandleRead` on a connected context */
    method HandleRead(r: ReadResult)
      requires Valid() && !Value().inCallback
      modifies Repr
      ensures Valid() && fresh(Repr - old(Repr))
      ensures Value() == AsyncModel.HandleRead(user, old(Value()), r)
    {
      hide AsyncModel.DisconnectNow, AsyncModel.ProcessCallbacks, Cbs, CallbackList.Valid;
      if err {
        DisconnectNow();
        return;
      }
      match r
      case ReadError =>
        err := true;
        DisconnectNow();
      case Data(more, bad) =>
        ReceiveData(more, bad);
        ProcessCallbacks();
    }

    /** What arrives is the reader's to deliver. */
    method ReceiveData(more: seq<Reply>, bad: bool)
      requires Valid()
      modifies `inbox, `broken
      ensures Valid() && Value() == old(Value()).(inbox := old(Value()).inbox + more, broken := bad)
    {
      hide Cbs, CallbackList.Valid;
      inbox := inbox + more;
      broken := bad;
    }

    /** `redisAsyncHandleWrite` on a connected context */
    method HandleWrite(w: WriteResult)
      requires Valid() && !Value().inCallback
      modifies Repr
      ensures Valid() && fresh(Repr - old(Repr))
      ensures Value() == AsyncModel.HandleWrite(user, old(Value()), w)
    {
      hide AsyncModel.DisconnectNow, Cbs, CallbackList.Valid;
      if err {
        DisconnectNow();
        return;
      }
      match w
      case WriteError =>
        err := true;
        DisconnectNow();
      case Written(n) =>
        obuf := if n < |obuf| then obuf[n..] else [];
    }

    /** The common beginning of both event handlers; the result says whether the event is to be handled now. */
    method Connect(c: Connecting) returns (go: bool)
      requires Valid() && !Value().inCallback && !IsReleased(Value())
      modifies Repr
      ensures Valid() && fresh(Repr - old(Repr))
      ensures var s := old(Value());
              && Value() == (if s.connected then s else AsyncModel.HandleConnect(user, s, c))
              && go == (Value().connected && !IsReleased(Value()))
              && (go ==> !Value().inCallback)
    {
      hide AsyncModel.HandleConnect, Cbs, CallbackList.Valid;
      if !connected {
        ConnectReleased(user, Value(), c);
        var ok := HandleConnect(c);
        if !ok { return false; }
        if !connected { return false; }
      }
      go := true;
    }

    method HandleCall(call: Call)
      requires Valid() && !Value().inCallback
      modifies Repr
      ensures Valid() && fresh(Repr - old(Repr))
      ensures Value() == AsyncModel.Handle(user, old(Value()), UserCall(call))
    {
      hide Submit, AsyncModel.AsyncDisconnect, AsyncModel.AsyncFree, Cbs, CallbackList.Valid;
      match call
      case Command(fn, cmd) => var _ := Command(fn, cmd);
      case Disconnect => AsyncDisconnect();
      case Free => AsyncFree();
    }

    /** A call from outside a callback, or an event on the socket. */
    method Handle(input: Input)
      requires Valid() && !Value().inCallback && !IsReleased(Value())
      modifies Repr
      ensures Valid() && fresh(Repr - old(Repr))
      ensures Value() == AsyncModel.Handle(user, old(Value()), input)
    {
      hide AsyncModel.HandleConnect, AsyncModel.HandleRead, AsyncModel.HandleWrite, IsReleased, Value, Cbs, CallbackList.Valid;
      match input
      case UserCall(call) => HandleCall(call);
      case Readable(c, r) =>
        var go := Connect(c);
        if go { HandleRead(r); }
      case Writable(c, w) =>
        var go := Connect(c);
        if go { HandleWrite(w); }
    }
  }

  /** A refused connection is released at once; otherwise nothing is released. */
  lemma ConnectReleased(user: User, s: Ctx, c: Connecting)
    requires !IsReleased(s)
    ensures IsReleased(AsyncModel.HandleConnect(user, s, c)) == c.Refused?
  {
  }

  /** No input comes after the context is gone. */
  ghost predicate InUse(user: User, inputs: seq<Input>) {
    forall k | 0 <= k < |inputs| :: !Over(Run(user, START, inputs[..k]))
  }

  lemma {:induction false} RunSnoc(user: User, s: Ctx, inputs: seq<Input>, input: Input)
    requires !Over(Run(user, s, inputs))
    ensures Run(user, s, inputs + [input]) == AsyncModel.Handle(user, Run(user, s, inputs), input)
    decreases |inputs|
  {
    var all := inputs + [input];
    if inputs == [] {
      assert all[1..] == [];
      assert Run(user, AsyncModel.Handle(user, s, input), []) == AsyncModel.Handle(user, s, input);
    } else if !Over(s) {
      assert all[1..] == inputs[1..] + [input];
      RunSnoc(user, AsyncModel.Handle(user, s, inputs[0]), inputs[1..], input);
    }
  }

  /** A context and all that happens to it while it is in use: the run of `AsyncModel`, and its guarantees. */
  method Serve(user: User, inputs: seq<Input>) returns (ac: AsyncContext)
    requires InUse(user, inputs)
    ensures ac.Value() == Run(user, START, inputs)
    ensures var t := ac.Value(); Delivers(t, if IsReleased(t) then |t.accepted| else |t.received|)
    ensures var t, read := ac.Value(), AllRead(user, START, inputs); t.received <= read && (Over(t) || t.received == read)
    ensures AllWritten(user, START, inputs) + ac.Value().obuf == Concat(ac.Value().commands)
    ensures var asked := AsyncCalls.Asked(AsyncCalls.AllCalls(user, START, inputs));
            ac.Value().commands == AsyncCalls.Texts(asked) && ac.Value().accepted == AsyncCalls.Callbacks(asked, 0)
  {
    hide AsyncModel.Handle, AsyncContext.Value, Run, AllRead, AllWritten;
    hide AsyncCalls.AllCalls, AsyncCalls.Asked, AsyncCalls.Texts, AsyncCalls.Callbacks;
    ac := new AsyncContext(user);
    assert Run(user, START, []) == START by { RunNothing(user); }
    var i := 0;
    while i < |inputs|
      invariant 0 <= i <= |inputs| && ac.Valid() && fresh(ac.Repr) && ac.user == user
      invariant ac.Value() == Run(user, START, inputs[..i])
    {
      DeliveryTheorem(user, inputs[..i]);
      RunSnoc(user, START, inputs[..i], inputs[i]);
      assert inputs[..i + 1] == inputs[..i] + [inputs[i]];
      ac.Handle(inputs[i]);
      i := i + 1;
    }
    assert inputs[..i] == inputs;
    DeliveryTheorem(user, inputs);
    WireTheorem(user, inputs);
    AsyncCalls.CommandTheorem(user, inputs);
  }

  lemma RunNothing(user: User)
    ensures Run(user, START, []) == START
  {
  }
}
