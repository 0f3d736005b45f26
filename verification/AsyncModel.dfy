/**
 The asynchronous command machine of `async.c` as a function from state to state, for ordinary commands.
 A callback is user code: `User` says which calls it makes when the callback of command number `id` runs,
 so a property for every `User` is a property for every program.
 */
module AsyncModel {
  import opened ByteStrings
  import opened Resp

  /** A call that user code makes: a command (with or without a callback), a clean disconnect, or a free. */
  datatype Call = Command(fn: bool, cmd: Bytes) | Disconnect | Free

  type User = (nat, Option<Reply>) -> seq<Call>

  /** A registered callback: the number of its command, and whether there is a function to run. */
  datatype Cb = Cb(id: nat, fn: bool)

  /** What the outside sees: a callback that runs, with its reply or NULL, and the release of the context. */
  datatype Event = Called(id: nat, reply: Option<Reply>) | Released(inCallback: bool)

  datatype Ctx = Ctx(
    connected: bool,
    disconnecting: bool,
    freeing: bool,
    inCallback: bool,
    /** an error is recorded in the context */
    err: bool,
    /** the callbacks of the commands whose replies are due */
    queue: seq<Cb>,
    /** the output buffer */
    obuf: Bytes,
    /** the replies that the reader can deliver, and whether it reports an error after them */
    inbox: seq<Reply>,
    broken: bool,
    /** an assertion of the source failed: the empty queue of a clean disconnect, the solicited reply */
    uncleanAssert: bool,
    unsolicitedAssert: bool,
    /** history: every accepted command and its bytes, every reply taken from the reader for a command, every event */
    accepted: seq<Cb>,
    commands: seq<Bytes>,
    received: seq<Reply>,
    log: seq<Event>)

  const START := Ctx(false, false, false, false, false, [], [], [], false, false, false, [], [], [], [])

  predicate Closing(s: Ctx) {
    s.disconnecting || s.freeing
  }

  predicate IsReleased(s: Ctx) {
    s.log != [] && s.log[|s.log| - 1].Released?
  }

  // ---------- The calls of the interface ----------

  /** `__redisAsyncCommand` for an ordinary command */
  function Submit(s: Ctx, fn: bool, cmd: Bytes): Ctx {
    if Closing(s) then s else
    var cb := Cb(|s.accepted|, fn);
    s.(queue := s.queue + [cb], accepted := s.accepted + [cb], commands := s.commands + [cmd], obuf := s.obuf + cmd)
  }

  /** The calls of a callback, which runs with its flag set: a disconnect or a free is only noted. */
  function Perform(s: Ctx, calls: seq<Call>): Ctx
    decreases |calls|
  {
    if calls == [] then s else Perform(PerformOne(s, calls[0]), calls[1..])
  }

  function PerformOne(s: Ctx, call: Call): Ctx {
    match call
    case Command(fn, cmd) => Submit(s, fn, cmd)
    case Disconnect => s.(disconnecting := true)
    case Free => s.(freeing := true)
  }

  /** `__redisRunCallback` */
  function RunCallback(user: User, s: Ctx, cb: Cb, reply: Option<Reply>): Ctx {
    if !cb.fn then s else
    var s1 := s.(inCallback := true, log := s.log + [Called(cb.id, reply)]);
    Perform(s1, user(cb.id, reply)).(inCallback := false)
  }

  /** The loop that runs the pending callbacks with a NULL reply. */
  function Drain(user: User, s: Ctx): Ctx
    requires Closing(s)
    decreases |s.queue|
  {
    if s.queue == [] then s else
    var s1 := RunCallback(user, s.(queue := s.queue[1..]), s.queue[0], None);
    CallbackWhileClosing(user, s.(queue := s.queue[1..]), s.queue[0], None);
    Drain(user, s1)
  }

  /** `__redisAsyncFree` */
  function Teardown(user: User, s: Ctx): Ctx
    requires Closing(s)
  {
    var s1 := Drain(user, s);
    s1.(log := s1.log + [Released(s1.inCallback)])
  }

  /** `__redisAsyncDisconnect` */
  function DisconnectNow(user: User, s: Ctx): Ctx
    requires s.err || Closing(s)
  {
    if s.err then Teardown(user, s.(disconnecting := true))
    else if s.queue != [] then s.(uncleanAssert := true)
    else Teardown(user, s)
  }

  /** `redisAsyncDisconnect`, outside callbacks */
  function AsyncDisconnect(user: User, s: Ctx): Ctx {
    var s1 := s.(disconnecting := true);
    if s1.queue == [] then DisconnectNow(user, s1) else s1
  }

  /** `redisAsyncFree`, outside callbacks */
  function AsyncFree(user: User, s: Ctx): Ctx {
    Teardown(user, s.(freeing := true))
  }

  /** `redisProcessCallbacks` */
  function ProcessCallbacks(user: User, s: Ctx): Ctx
    decreases |s.inbox|
  {
    if s.inbox == [] then
      if s.broken then DisconnectNow(user, s.(err := true))
      else if s.disconnecting && s.obuf == [] && s.queue == [] then DisconnectNow(user, s)
      else s
    else
      var reply, s1 := s.inbox[0], s.(inbox := s.inbox[1..]);
      if s1.queue == [] then
        if reply.Error? then DisconnectNow(user, s1.(err := true)) else s1.(unsolicitedAssert := true)
      else
        var cb := s1.queue[0];
        var s2 := s1.(queue := s1.queue[1..], received := s1.received + [reply]);
        if cb.fn then
          var s3 := RunCallback(user, s2, cb, Some(reply));
          CallbackKeepsInbox(user, s2, cb, Some(reply));
          if s3.freeing then Teardown(user, s3) else ProcessCallbacks(user, s3)
        else ProcessCallbacks(user, s2)
  }

  // ---------- The events of the loop ----------

  datatype Connecting = InProgress | Refused | Established

  datatype ReadResult = ReadError | Data(replies: seq<Reply>, broken: bool)

  datatype WriteResult = WriteError | Written(n: nat)

  /** What happens to a context from outside: calls outside callbacks, and events on the socket. */
  datatype Input =
    | UserCall(call: Call)
    | Readable(connecting: Connecting, read: ReadResult)
    | Writable(connecting: Connecting, write: WriteResult)

  /** `__redisAsyncHandleConnect` */
  function HandleConnect(user: User, s: Ctx, c: Connecting): Ctx {
    match c
    case InProgress => s.(err := true)
    case Refused => DisconnectNow(user, s.(err := true))
    case Established => s.(connected := true)
  }

  /** `redisAsyncHandleRead` once connected */
  function HandleRead(user: User, s: Ctx, r: ReadResult): Ctx {
    if s.err then DisconnectNow(user, s)
    else match r
      case ReadError => DisconnectNow(user, s.(err := true))
      case Data(replies, broken) => ProcessCallbacks(user, s.(inbox := s.inbox + replies, broken := broken))
  }

  /** `redisAsyncHandleWrite` once connected */
  function HandleWrite(user: User, s: Ctx, w: WriteResult): Ctx {
    if s.err then DisconnectNow(user, s)
    else match w
      case WriteError => DisconnectNow(user, s.(err := true))
      case Written(n) => s.(obuf := if n < |s.obuf| then s.obuf[n..] else [])
  }

  function Handle(user: User, s: Ctx, input: Input): Ctx {
    match input
    case UserCall(Command(fn, cmd)) => Submit(s, fn, cmd)
    case UserCall(Disconnect) => AsyncDisconnect(user, s)
    case UserCall(Free) => AsyncFree(user, s)
    case Readable(c, r) =>
      var s1 := if s.connected then s else HandleConnect(user, s, c);
      if s1.connected && !IsReleased(s1) then HandleRead(user, s1, r) else s1
    case Writable(c, w) =>
      var s1 := if s.connected then s else HandleConnect(user, s, c);
      if s1.connected && !IsReleased(s1) then HandleWrite(user, s1, w) else s1
  }

  /** The context is gone or the process aborted. */
  predicate Over(s: Ctx) {
    IsReleased(s) || s.uncleanAssert || s.unsolicitedAssert
  }

  /** A whole run: inputs are handled up to the release of the context. */
  function Run(user: User, s: Ctx, inputs: seq<Input>): Ctx
    decreases |inputs|
  {
    if inputs == [] || Over(s) then s else Run(user, Handle(user, s, inputs[0]), inputs[1..])
  }

  // ---------- What a callback may change ----------

  /** The callbacks carry the numbers of their commands. */
  predicate Numbered(cbs: seq<Cb>, from: nat) {
    forall i | 0 <= i < |cbs| :: cbs[i].id == from + i
  }

  /** Between `s` and `t`, only commands were accepted and flags set. */
  predicate Grows(s: Ctx, t: Ctx) {
    && |s.accepted| <= |t.accepted| && t.accepted[..|s.accepted|] == s.accepted
    && t.queue == s.queue + t.accepted[|s.accepted|..]
    && Numbered(t.accepted[|s.accepted|..], |s.accepted|)
    && (Closing(s) ==> Closing(t) && t.accepted == s.accepted && t.obuf == s.obuf)
    && t == s.(queue := t.queue, accepted := t.accepted, commands := t.commands, obuf := t.obuf,
               disconnecting := t.disconnecting, freeing := t.freeing)
  }

  lemma GrowsTrans(s: Ctx, t: Ctx, u: Ctx)
    requires Grows(s, t) && Grows(t, u)
    ensures Grows(s, u)
  {
    var n, k := |s.accepted|, |t.accepted|;
    var first, others := t.accepted[n..], u.accepted[k..];
    PrefixTrans(s.accepted, t.accepted, u.accepted);
    NumberedJoin(first, others, n);
    hide Numbered;
    assert s.queue + first + others == s.queue + (first + others);
  }

  lemma PrefixTrans(a: seq<Cb>, b: seq<Cb>, c: seq<Cb>)
    requires |a| <= |b| <= |c| && b[..|a|] == a && c[..|b|] == b
    ensures c[..|a|] == a && c[|a|..] == b[|a|..] + c[|b|..]
  {
    assert c[..|a|] == c[..|b|][..|a|];
  }

  lemma NumberedJoin(a: seq<Cb>, b: seq<Cb>, from: nat)
    requires Numbered(a, from) && Numbered(b, from + |a|)
    ensures Numbered(a + b, from)
  {
  }

  lemma SubmitGrows(s: Ctx, fn: bool, cmd: Bytes)
    ensures Grows(s, Submit(s, fn, cmd))
  {
    if Closing(s) {
      GrowsRefl(s);
    } else {
      var t, n := Submit(s, fn, cmd), |s.accepted|;
      assert t.accepted[n..] == [Cb(n, fn)] && t.accepted[..n] == s.accepted;
    }
  }

  lemma PerformOneGrows(s: Ctx, call: Call)
    ensures Grows(s, PerformOne(s, call))
  {
    match call
    case Command(fn, cmd) => SubmitGrows(s, fn, cmd);
    case _ => GrowsRefl(s);
  }

  lemma {:induction false} PerformGrows(s: Ctx, calls: seq<Call>)
    ensures Grows(s, Perform(s, calls))
    decreases |calls|
  {
    hide Grows;
    if calls == [] {
      GrowsRefl(s);
    } else {
      var t := PerformOne(s, calls[0]);
      PerformOneGrows(s, calls[0]);
      PerformGrows(t, calls[1..]);
      GrowsTrans(s, t, Perform(t, calls[1..]));
    }
  }

  lemma GrowsRefl(s: Ctx)
    ensures Grows(s, s)
  {
    assert s.accepted[|s.accepted|..] == [] && s.queue + [] == s.queue;
  }

  /** What running a callback amounts to: its event, then whatever it submitted. */
  lemma CallbackGrows(user: User, s: Ctx, cb: Cb, reply: Option<Reply>)
    requires !s.inCallback
    ensures var t := RunCallback(user, s, cb, reply);
            Grows(s.(log := s.log + if cb.fn then [Called(cb.id, reply)] else []), t)
  {
    if cb.fn {
      PerformGrows(s.(inCallback := true, log := s.log + [Called(cb.id, reply)]), user(cb.id, reply));
    } else {
      assert s.log + [] == s.log;
      GrowsRefl(s);
    }
  }

  /** Once the context is closing, a callback gets no command accepted. */
  lemma CallbackWhileClosing(user: User, s: Ctx, cb: Cb, reply: Option<Reply>)
    requires Closing(s)
    ensures var t := RunCallback(user, s, cb, reply);
            Closing(t) && t.queue == s.queue && t.accepted == s.accepted && t.obuf == s.obuf
  {
    if cb.fn {
      PerformGrows(s.(inCallback := true, log := s.log + [Called(cb.id, reply)]), user(cb.id, reply));
      assert s.accepted[|s.accepted|..] == [] && s.queue + [] == s.queue;
    }
  }

  /** The replies still to be read are none of a callback's business. */
  lemma CallbackKeepsInbox(user: User, s: Ctx, cb: Cb, reply: Option<Reply>)
    ensures RunCallback(user, s, cb, reply).inbox == s.inbox
  {
    if cb.fn {
      PerformGrows(s.(inCallback := true, log := s.log + [Called(cb.id, reply)]), user(cb.id, reply));
    }
  }

  // ---------- What the callbacks were told ----------

  function Answer(i: nat, received: seq<Reply>): Option<Reply> {
    if i < |received| then Some(received[i]) else None
  }

  /** The events of the commands `cbs`: in order, each with a function once, with its own reply or with NULL. */
  function Outcomes(cbs: seq<Cb>, received: seq<Reply>): seq<Event> {
    if cbs == [] then [] else
    var n := |cbs| - 1;
    Outcomes(cbs[..n], received) + if cbs[n].fn then [Called(n, Answer(n, received))] else []
  }

  function DoneCount(s: Ctx): int {
    |s.accepted| - |s.queue|
  }

  /** The queue holds the commands not yet answered, and the log is right for all others. */
  predicate Consistent(s: Ctx) {
    var d := DoneCount(s);
    && |s.received| <= d && s.accepted[d..] == s.queue
    && Numbered(s.accepted, 0)
    && s.log == Outcomes(s.accepted[..d], s.received)
    && !s.inCallback && !s.uncleanAssert
  }

  /** Between two inputs: every command that was answered had its own reply, and no free is pending. */
  predicate Live(s: Ctx) {
    Consistent(s) && |s.received| == DoneCount(s) && !s.freeing
  }

  /** After the release, which is the last event: every accepted command has been answered. */
  predicate Gone(s: Ctx) {
    && s.queue == [] && !s.inCallback && !s.uncleanAssert && !s.unsolicitedAssert
    && Numbered(s.accepted, 0) && |s.received| <= |s.accepted|
    && s.log == Outcomes(s.accepted, s.received) + [Released(false)]
  }

  lemma {:induction false} OutcomesIgnoreLater(cbs: seq<Cb>, received: seq<Reply>, more: seq<Reply>)
    requires |cbs| <= |received|
    ensures Outcomes(cbs, received + more) == Outcomes(cbs, received)
    decreases |cbs|
  {
    if cbs != [] {
      OutcomesIgnoreLater(cbs[..|cbs| - 1], received, more);
    }
  }

  lemma {:induction false} NoReleaseInOutcomes(cbs: seq<Cb>, received: seq<Reply>)
    ensures forall e | e in Outcomes(cbs, received) :: e.Called?
    decreases |cbs|
  {
    if cbs != [] {
      NoReleaseInOutcomes(cbs[..|cbs| - 1], received);
    }
  }

  /** The oldest command was answered and its callback ran: the log is right for one command more. */
  lemma Answered(user: User, s: Ctx, reply: Option<Reply>)
    requires Consistent(s) && s.queue != []
    requires reply.Some? ==> |s.received| == DoneCount(s)
    ensures var s1 := s.(queue := s.queue[1..], received := s.received + if reply.Some? then [reply.value] else []);
            var t := RunCallback(user, s1, s.queue[0], reply);
            && Consistent(t) && t.received == s1.received
            && DoneCount(t) == DoneCount(s) + 1
            && t.unsolicitedAssert == s.unsolicitedAssert
  {
    hide Grows, Perform, Outcomes, Numbered;
    var cb := s.queue[0];
    var s1 := s.(queue := s.queue[1..], received := s.received + if reply.Some? then [reply.value] else []);
    var s2 := s1.(log := s1.log + if cb.fn then [Called(cb.id, reply)] else []);
    AnswerLogged(s, reply);
    CallbackGrows(user, s1, cb, reply);
    hide RunCallback, Consistent;
    GrowsConsistent(s2, RunCallback(user, s1, cb, reply));
  }

  /** The event of the oldest command is the next one of the log. */
  lemma AnswerLogged(s: Ctx, reply: Option<Reply>)
    requires Consistent(s) && s.queue != []
    requires reply.Some? ==> |s.received| == DoneCount(s)
    ensures var cb := s.queue[0];
            var s2 := s.(queue := s.queue[1..], received := s.received + (if reply.Some? then [reply.value] else []),
                         log := s.log + if cb.fn then [Called(cb.id, reply)] else []);
            Consistent(s2) && DoneCount(s2) == DoneCount(s) + 1
  {
    var d, cb := DoneCount(s), s.queue[0];
    var received := s.received + if reply.Some? then [reply.value] else [];
    assert s.accepted[d] == cb && s.accepted[d + 1..] == s.queue[1..];
    assert s.accepted[..d + 1][..d] == s.accepted[..d];
    if reply.Some? {
      OutcomesIgnoreLater(s.accepted[..d], s.received, [reply.value]);
    } else {
      assert received == s.received;
    }
  }

  lemma GrowsConsistent(s: Ctx, t: Ctx)
    requires Consistent(s) && Grows(s, t)
    ensures Consistent(t) && DoneCount(t) == DoneCount(s) && t.received == s.received
    ensures t.unsolicitedAssert == s.unsolicitedAssert
  {
    var n, d := |s.accepted|, DoneCount(s);
    var more := t.accepted[n..];
    assert t.accepted == s.accepted + more;
    assert t.accepted[d..] == s.accepted[d..] + more;
    assert t.accepted[..d] == s.accepted[..d];
    forall i | 0 <= i < |t.accepted|
      ensures t.accepted[i].id == i
    {
      if i >= n { assert more[i - n] == t.accepted[i]; }
    }
  }

  lemma {:induction false} DrainAnswers(user: User, s: Ctx)
    requires Closing(s) && Consistent(s)
    ensures var t := Drain(user, s);
            && Consistent(t) && t.queue == [] && t.accepted == s.accepted && t.received == s.received
            && t.unsolicitedAssert == s.unsolicitedAssert
    decreases |s.queue|
  {
    if s.queue != [] {
      assert s.received + [] == s.received;
      Answered(user, s, None);
      CallbackWhileClosing(user, s.(queue := s.queue[1..]), s.queue[0], None);
      DrainAnswers(user, RunCallback(user, s.(queue := s.queue[1..]), s.queue[0], None));
    }
  }

  lemma TeardownReleases(user: User, s: Ctx)
    requires Closing(s) && Consistent(s) && !s.unsolicitedAssert
    ensures var t := Teardown(user, s); Gone(t) && t.accepted == s.accepted
  {
    DrainAnswers(user, s);
    var t := Drain(user, s);
    assert t.accepted[..|t.accepted|] == t.accepted;
  }

  lemma DisconnectNowReleases(user: User, s: Ctx)
    requires Consistent(s) && !s.unsolicitedAssert && (s.err || (Closing(s) && s.queue == []))
    ensures var t := DisconnectNow(user, s); Gone(t) && t.accepted == s.accepted
  {
    if s.err {
      TeardownReleases(user, s.(disconnecting := true));
    } else {
      TeardownReleases(user, s);
    }
  }

  lemma NothingAnswers(user: User, s: Ctx)
    requires Live(s) && !s.unsolicitedAssert && (s.inbox == [] || s.queue == [])
    ensures var t := ProcessCallbacks(user, s);
            Gone(t) || (Live(t) && (t.unsolicitedAssert ==> t.queue == []))
  {
    hide DisconnectNow, Consistent, Gone;
    if s.inbox == [] {
      if s.broken {
        InboxApart(s, s.(err := true));
        DisconnectNowReleases(user, s.(err := true));
      } else if s.disconnecting && s.obuf == [] && s.queue == [] {
        DisconnectNowReleases(user, s);
      }
    } else {
      var s1 := s.(inbox := s.inbox[1..]);
      InboxApart(s, s1);
      if s.inbox[0].Error? {
        InboxApart(s, s1.(err := true));
        DisconnectNowReleases(user, s1.(err := true));
      } else {
        InboxApart(s, s1.(unsolicitedAssert := true));
      }
    }
  }

  lemma {:induction false} ProcessingAnswers(user: User, s: Ctx)
    requires Live(s) && !s.unsolicitedAssert
    ensures var t := ProcessCallbacks(user, s);
            Gone(t) || (Live(t) && (t.unsolicitedAssert ==> t.queue == []))
    decreases |s.inbox|
  {
    hide RunCallback, ProcessCallbacks, Teardown, Gone, Consistent;
    if s.inbox == [] || s.queue == [] {
      NothingAnswers(user, s);
    } else {
      var reply, s1 := s.inbox[0], s.(inbox := s.inbox[1..]);
      InboxApart(s, s1);
      Answered(user, s1, Some(reply));
      ProcessStep(user, s);
      var s2 := s1.(queue := s1.queue[1..], received := s1.received + [reply]);
      var s3 := RunCallback(user, s2, s1.queue[0], Some(reply));
      if s1.queue[0].fn && s3.freeing {
        TeardownReleases(user, s3);
      } else {
        NotFreeing(user, s2, s1.queue[0], Some(reply));
        ProcessingAnswers(user, s3);
      }
    }
  }

  /** What is still unread, and what goes wrong, is not part of what was answered. */
  lemma InboxApart(s: Ctx, t: Ctx)
    requires Consistent(s) && t == s.(inbox := t.inbox, err := t.err, unsolicitedAssert := t.unsolicitedAssert)
    ensures Consistent(t) && DoneCount(t) == DoneCount(s)
  {
  }

  lemma NotFreeing(user: User, s: Ctx, cb: Cb, reply: Option<Reply>)
    requires !s.freeing
    ensures !cb.fn ==> !RunCallback(user, s, cb, reply).freeing
  {
  }

  // ---------- Whole runs ----------

  lemma ConnectingReleases(user: User, s: Ctx, c: Connecting)
    requires Live(s) && !s.unsolicitedAssert
    ensures var t := HandleConnect(user, s, c);
            Gone(t) || (Live(t) && !t.unsolicitedAssert && !IsReleased(t))
  {
    LiveIsNotReleased(s);
    if c.Refused? {
      DisconnectNowReleases(user, s.(err := true));
    }
  }

  lemma LiveIsNotReleased(s: Ctx)
    requires Consistent(s)
    ensures !IsReleased(s)
  {
    NoReleaseInOutcomes(s.accepted[..DoneCount(s)], s.received);
    if s.log != [] {
      assert s.log[|s.log| - 1] in s.log;
    }
  }

  lemma ReadAnswers(user: User, s: Ctx, r: ReadResult)
    requires Live(s) && !s.unsolicitedAssert
    ensures var t := HandleRead(user, s, r);
            Gone(t) || (Live(t) && (t.unsolicitedAssert ==> t.queue == []))
  {
    if s.err {
      DisconnectNowReleases(user, s);
    } else {
      match r
      case ReadError => DisconnectNowReleases(user, s.(err := true));
      case Data(replies, broken) => ProcessingAnswers(user, s.(inbox := s.inbox + replies, broken := broken));
    }
  }

  lemma WriteAnswers(user: User, s: Ctx, w: WriteResult)
    requires Live(s) && !s.unsolicitedAssert
    ensures var t := HandleWrite(user, s, w); Gone(t) || (Live(t) && !t.unsolicitedAssert)
  {
    if s.err {
      DisconnectNowReleases(user, s);
    } else if w.WriteError? {
      DisconnectNowReleases(user, s.(err := true));
    }
  }

  lemma CallAnswers(user: User, s: Ctx, call: Call)
    requires Live(s) && !s.unsolicitedAssert
    ensures var t := Handle(user, s, UserCall(call)); Gone(t) || (Live(t) && !t.unsolicitedAssert)
  {
    match call
    case Command(fn, cmd) =>
      SubmitGrows(s, fn, cmd);
      GrowsConsistent(s, Submit(s, fn, cmd));
    case Disconnect =>
      if s.queue == [] {
        DisconnectNowReleases(user, s.(disconnecting := true));
      }
    case Free => TeardownReleases(user, s.(freeing := true));
  }

  lemma HandleAnswers(user: User, s: Ctx, input: Input)
    requires Live(s) && !s.unsolicitedAssert
    ensures var t := Handle(user, s, input);
            Gone(t) || (Live(t) && (t.unsolicitedAssert ==> t.queue == []))
  {
    match input
    case UserCall(call) => CallAnswers(user, s, call);
    case Readable(c, r) =>
      LiveIsNotReleased(s);
      var s1 := if s.connected then s else HandleConnect(user, s, c);
      if !s.connected { ConnectingReleases(user, s, c); }
      if s1.connected && !IsReleased(s1) { ReadAnswers(user, s1, r); }
    case Writable(c, w) =>
      LiveIsNotReleased(s);
      var s1 := if s.connected then s else HandleConnect(user, s, c);
      if !s.connected { ConnectingReleases(user, s, c); }
      if s1.connected && !IsReleased(s1) { WriteAnswers(user, s1, w); }
  }

  lemma {:induction false} RunAnswers(user: User, s: Ctx, inputs: seq<Input>)
    requires Gone(s) || (Live(s) && (s.unsolicitedAssert ==> s.queue == []))
    ensures var t := Run(user, s, inputs);
            Gone(t) || (Live(t) && (t.unsolicitedAssert ==> t.queue == []))
    decreases |inputs|
  {
    if inputs != [] && !Over(s) {
      HandleAnswers(user, s, inputs[0]);
      RunAnswers(user, Handle(user, s, inputs[0]), inputs[1..]);
    }
  }

  // ---------- What the reader hands over, and what is written ----------

  /** The context as an event finds it, once a pending connect is settled. */
  function Settled(user: User, s: Ctx, c: Connecting): Ctx {
    if s.connected then s else HandleConnect(user, s, c)
  }

  /** The event is handled: the context is connected, still there, and without an error. */
  predicate Usable(s: Ctx) {
    s.connected && !IsReleased(s) && !s.err
  }

  /** The replies that an input makes the reader deliver. */
  function ReadBy(user: User, s: Ctx, input: Input): seq<Reply> {
    match input
    case Readable(c, Data(replies, _)) => if Usable(Settled(user, s, c)) then replies else []
    case _ => []
  }

  /** The replies that the reader delivers in a run, in order. */
  function AllRead(user: User, s: Ctx, inputs: seq<Input>): seq<Reply>
    decreases |inputs|
  {
    if inputs == [] || Over(s) then []
    else ReadBy(user, s, inputs[0]) + AllRead(user, Handle(user, s, inputs[0]), inputs[1..])
  }

  /** The bytes that an input puts on the wire. */
  function WrittenBy(user: User, s: Ctx, input: Input): Bytes {
    match input
    case Writable(c, Written(n)) =>
      var s1 := Settled(user, s, c);
      if !Usable(s1) then [] else if n < |s1.obuf| then s1.obuf[..n] else s1.obuf
    case _ => []
  }

  function AllWritten(user: User, s: Ctx, inputs: seq<Input>): Bytes
    decreases |inputs|
  {
    if inputs == [] || Over(s) then []
    else WrittenBy(user, s, inputs[0]) + AllWritten(user, Handle(user, s, inputs[0]), inputs[1..])
  }

  /** New commands are buffered behind the old buffer, of which, and of them, `written` is gone. */
  predicate Buffered(cmds: seq<Bytes>, obuf: Bytes, cmds': seq<Bytes>, obuf': Bytes, written: Bytes) {
    |cmds| <= |cmds'| && cmds'[..|cmds|] == cmds && written + obuf' == obuf + Concat(cmds'[|cmds|..])
  }

  lemma BufferedRefl(cmds: seq<Bytes>, obuf: Bytes)
    ensures Buffered(cmds, obuf, cmds, obuf, [])
  {
    assert cmds[|cmds|..] == [] && obuf + [] == obuf && [] + obuf == obuf;
  }

  lemma BufferedMore(cmds: seq<Bytes>, obuf: Bytes, cmd: Bytes)
    ensures Buffered(cmds, obuf, cmds + [cmd], obuf + cmd, [])
  {
    assert (cmds + [cmd])[|cmds|..] == [cmd] && [] + (obuf + cmd) == obuf + cmd;
    assert Concat([cmd]) == cmd + Concat([]) && cmd + [] == cmd;
  }

  lemma BufferedTrans(c0: seq<Bytes>, b0: Bytes, c1: seq<Bytes>, b1: Bytes, w1: Bytes, c2: seq<Bytes>, b2: Bytes, w2: Bytes)
    requires Buffered(c0, b0, c1, b1, w1) && Buffered(c1, b1, c2, b2, w2)
    ensures Buffered(c0, b0, c2, b2, w1 + w2)
  {
    var first, others := c1[|c0|..], c2[|c1|..];
    assert c2[..|c0|] == c2[..|c1|][..|c0|];
    assert c2[|c0|..] == first + others;
    ConcatAppend(first, others);
    JoinWritten(w1, w2, b0, b1, b2, Concat(first), Concat(others));
  }

  lemma JoinWritten(written: Bytes, later: Bytes, a: Bytes, b: Bytes, c: Bytes, first: Bytes, others: Bytes)
    requires written + b == a + first && later + c == b + others
    ensures written + later + c == a + (first + others)
  {
    assert written + later + c == written + (later + c);
    assert written + (b + others) == written + b + others;
    assert a + first + others == a + (first + others);
  }

  /** Between `s` and `t` nothing was read or written: only commands were accepted, behind all others. */
  predicate Quiet(s: Ctx, t: Ctx) {
    && t.received == s.received && t.inbox == s.inbox
    && |t.commands| - |s.commands| == |t.accepted| - |s.accepted|
    && Buffered(s.commands, s.obuf, t.commands, t.obuf, [])
  }

  lemma QuietRefl(s: Ctx)
    ensures Quiet(s, s)
  {
    BufferedRefl(s.commands, s.obuf);
  }

  lemma QuietTrans(s: Ctx, t: Ctx, u: Ctx)
    requires Quiet(s, t) && Quiet(t, u)
    ensures Quiet(s, u)
  {
    hide Buffered;
    var none: Bytes := [];
    BufferedTrans(s.commands, s.obuf, t.commands, t.obuf, none, u.commands, u.obuf, none);
    assert none + none == none;
  }

  lemma SubmitQuiet(s: Ctx, fn: bool, cmd: Bytes)
    ensures Quiet(s, Submit(s, fn, cmd))
  {
    hide Buffered;
    QuietRefl(s);
    BufferedMore(s.commands, s.obuf, cmd);
  }

  lemma {:induction false} PerformQuiet(s: Ctx, calls: seq<Call>)
    ensures Quiet(s, Perform(s, calls))
    decreases |calls|
  {
    hide Quiet;
    QuietRefl(s);
    if calls != [] {
      var t := PerformOne(s, calls[0]);
      PerformOneQuiet(s, calls[0]);
      PerformQuiet(t, calls[1..]);
      QuietTrans(s, t, Perform(t, calls[1..]));
    }
  }

  lemma PerformOneQuiet(s: Ctx, call: Call)
    ensures Quiet(s, PerformOne(s, call))
  {
    hide Submit;
    match call
    case Command(fn, cmd) => SubmitQuiet(s, fn, cmd);
    case _ => QuietRefl(s);
  }

  /** A callback reads nothing and writes nothing. */
  lemma CallbackQuiet(user: User, s: Ctx, cb: Cb, reply: Option<Reply>)
    ensures Quiet(s, RunCallback(user, s, cb, reply))
  {
    hide Perform;
    QuietRefl(s);
    if cb.fn {
      PerformQuiet(s.(inCallback := true, log := s.log + [Called(cb.id, reply)]), user(cb.id, reply));
    }
  }

  lemma {:induction false} DrainQuiet(user: User, s: Ctx)
    requires Closing(s)
    ensures Quiet(s, Drain(user, s))
    decreases |s.queue|
  {
    hide RunCallback;
    if s.queue == [] {
      QuietRefl(s);
    } else {
      var s1 := s.(queue := s.queue[1..]);
      var t := RunCallback(user, s1, s.queue[0], None);
      CallbackWhileClosing(user, s1, s.queue[0], None);
      CallbackQuiet(user, s1, s.queue[0], None);
      DrainQuiet(user, t);
      assert Quiet(s, t);
      hide Quiet;
      QuietTrans(s, t, Drain(user, t));
    }
  }

  lemma TeardownQuiet(user: User, s: Ctx)
    requires Closing(s)
    ensures var t := Teardown(user, s); Quiet(s, t) && Over(t)
  {
    hide Drain;
    DrainQuiet(user, s);
  }

  /** Disconnecting ends the run. */
  lemma DisconnectQuiet(user: User, s: Ctx)
    requires s.err || Closing(s)
    ensures var t := DisconnectNow(user, s); Quiet(s, t) && Over(t)
  {
    hide Teardown;
    QuietRefl(s);
    TeardownQuiet(user, s.(disconnecting := true));
    if !s.err && s.queue == [] {
      TeardownQuiet(user, s);
    }
  }

  /** Of the replies that are there, a first part is taken, in order; all of them, unless the run is over. */
  predicate Takes(s: Ctx, t: Ctx) {
    && s.received <= t.received <= s.received + s.inbox
    && (!Over(t) ==> t.received == s.received + s.inbox && t.inbox == [])
    && Quiet(s.(received := t.received, inbox := t.inbox), t)
  }

  lemma QuietTakes(s: Ctx, t: Ctx)
    requires Quiet(s, t) && (!Over(t) ==> s.inbox == [])
    ensures Takes(s, t)
  {
    assert s.received + [] == s.received;
  }

  lemma TakesOne(s: Ctx, s2: Ctx, t: Ctx, u: Ctx)
    requires s.inbox != [] && s2 == s.(inbox := s.inbox[1..], queue := s2.queue, received := s.received + [s.inbox[0]])
    requires Quiet(s2, t) && Takes(t, u)
    ensures Takes(s, u)
  {
    assert s.received + [s.inbox[0]] + s.inbox[1..] == s.received + s.inbox;
    var s' := s.(received := u.received, inbox := u.inbox);
    var t' := t.(received := u.received, inbox := u.inbox);
    assert Quiet(s', t');
    hide Over, Quiet;
    QuietTrans(s', t', u);
  }

  lemma NothingTakes(user: User, s: Ctx)
    requires s.inbox == []
    ensures Takes(s, ProcessCallbacks(user, s))
  {
    hide DisconnectNow, Takes, Quiet, Over;
    QuietRefl(s);
    if s.broken {
      DisconnectQuiet(user, s.(err := true));
      EndTakes(s, s.(err := true), DisconnectNow(user, s.(err := true)));
    } else if s.disconnecting && s.obuf == [] && s.queue == [] {
      DisconnectQuiet(user, s);
      EndTakes(s, s, DisconnectNow(user, s));
    } else {
      QuietTakes(s, s);
    }
  }

  lemma UnaskedTakes(user: User, s: Ctx)
    requires s.inbox != [] && s.queue == []
    ensures Takes(s, ProcessCallbacks(user, s))
  {
    hide DisconnectNow, Takes, Quiet, Over;
    var s1 := s.(inbox := s.inbox[1..]);
    if s.inbox[0].Error? {
      DisconnectQuiet(user, s1.(err := true));
      EndTakes(s, s1.(err := true), DisconnectNow(user, s1.(err := true)));
    } else {
      AssertQuiet(s1);
      EndTakes(s, s1, s1.(unsolicitedAssert := true));
    }
  }

  /** What processing does with the first reply when a command waits for it. */
  lemma ProcessStep(user: User, s: Ctx)
    requires s.inbox != [] && s.queue != []
    ensures var s2 := s.(inbox := s.inbox[1..], queue := s.queue[1..], received := s.received + [s.inbox[0]]);
            var s3 := RunCallback(user, s2, s.queue[0], Some(s.inbox[0]));
            && Quiet(s2, s3) && s3.inbox == s2.inbox
            && ProcessCallbacks(user, s)
            == if s.queue[0].fn && s3.freeing then Teardown(user, s3) else ProcessCallbacks(user, s3)
  {
    hide RunCallback, Teardown, Quiet;
    var s2 := s.(inbox := s.inbox[1..], queue := s.queue[1..], received := s.received + [s.inbox[0]]);
    CallbackQuiet(user, s2, s.queue[0], Some(s.inbox[0]));
    CallbackKeepsInbox(user, s2, s.queue[0], Some(s.inbox[0]));
    NoCallback(user, s2, s.queue[0], Some(s.inbox[0]));
  }

  lemma {:induction false} ProcessingTakes(user: User, s: Ctx)
    ensures Takes(s, ProcessCallbacks(user, s))
    decreases |s.inbox|
  {
    hide RunCallback, ProcessCallbacks, Teardown, Takes, Quiet, Over;
    if s.inbox == [] {
      NothingTakes(user, s);
    } else if s.queue == [] {
      UnaskedTakes(user, s);
    } else {
      var s2 := s.(inbox := s.inbox[1..], queue := s.queue[1..], received := s.received + [s.inbox[0]]);
      var s3 := RunCallback(user, s2, s.queue[0], Some(s.inbox[0]));
      ProcessStep(user, s);
      if s.queue[0].fn && s3.freeing {
        TeardownQuiet(user, s3);
        EndTakes(s3, s3, Teardown(user, s3));
        TakesOne(s, s2, s3, Teardown(user, s3));
      } else {
        ProcessingTakes(user, s3);
        TakesOne(s, s2, s3, ProcessCallbacks(user, s3));
      }
    }
  }

  lemma AssertQuiet(s: Ctx)
    ensures var t := s.(unsolicitedAssert := true); Quiet(s, t) && Over(t)
  {
    QuietRefl(s);
  }

  lemma NoCallback(user: User, s: Ctx, cb: Cb, reply: Option<Reply>)
    ensures !cb.fn ==> RunCallback(user, s, cb, reply) == s
  {
  }

  /** What ends a run may leave replies unread. */
  lemma EndTakes(s: Ctx, s1: Ctx, t: Ctx)
    requires Quiet(s1, t) && Over(t) && s1 == s.(inbox := s1.inbox, err := s1.err)
    ensures Takes(s, t)
  {
  }

  /**
   From `s` to `t`: of the replies `read`, a first part was taken in order, or all unless the run is over; and
   what was written and what is still buffered are the buffer of `s` and then the new commands.
   */
  predicate Transfers(s: Ctx, t: Ctx, read: seq<Reply>, written: Bytes) {
    && s.received <= t.received <= s.received + read
    && (!Over(t) ==> t.received == s.received + read && t.inbox == [])
    && |t.commands| - |s.commands| == |t.accepted| - |s.accepted|
    && Buffered(s.commands, s.obuf, t.commands, t.obuf, written)
  }

  lemma QuietTransfers(s: Ctx, t: Ctx)
    requires Quiet(s, t) && (!Over(t) ==> s.inbox == [])
    ensures Transfers(s, t, [], [])
  {
    hide Buffered;
    assert s.received + [] == s.received;
  }

  lemma TransfersTrans(s: Ctx, t: Ctx, u: Ctx, read: seq<Reply>, more: seq<Reply>, written: Bytes, later: Bytes)
    requires Transfers(s, t, read, written) && !Over(t) && Transfers(t, u, more, later)
    ensures Transfers(s, u, read + more, written + later)
  {
    hide Over, Buffered;
    assert s.received + read + more == s.received + (read + more);
    BufferedTrans(s.commands, s.obuf, t.commands, t.obuf, written, u.commands, u.obuf, later);
  }

  /** Settling a pending connect reads and writes nothing; a refused one ends the run. */
  lemma SettledQuiet(user: User, s: Ctx, c: Connecting)
    ensures var t := Settled(user, s, c); Quiet(s, t) && (t.connected || t == s.(err := true) || Over(t))
  {
    hide DisconnectNow, Quiet;
    QuietRefl(s);
    ErrorQuiet(s);
    if !s.connected {
      match c
      case InProgress =>
      case Refused => DisconnectQuiet(user, s.(err := true)); ErrorQuietThen(s, DisconnectNow(user, s.(err := true)));
      case Established => ConnectedQuiet(s);
    }
  }

  lemma ErrorQuiet(s: Ctx)
    ensures Quiet(s, s.(err := true))
  {
    QuietRefl(s);
  }

  lemma ErrorQuietThen(s: Ctx, t: Ctx)
    requires Quiet(s.(err := true), t)
    ensures Quiet(s, t)
  {
  }

  lemma ConnectedQuiet(s: Ctx)
    ensures Quiet(s, s.(connected := true))
  {
    QuietRefl(s);
  }

  lemma ReadTransfers(user: User, s: Ctx, r: ReadResult)
    requires s.inbox == []
    ensures Transfers(s, HandleRead(user, s, r), if r.Data? && !s.err then r.replies else [], [])
  {
    hide DisconnectNow, ProcessCallbacks, Quiet, Transfers, Takes;
    if s.err {
      DisconnectQuiet(user, s);
      QuietTransfers(s, DisconnectNow(user, s));
    } else {
      match r
      case ReadError =>
        DisconnectQuiet(user, s.(err := true));
        ErrorQuietThen(s, DisconnectNow(user, s.(err := true)));
        QuietTransfers(s, DisconnectNow(user, s.(err := true)));
      case Data(replies, broken) =>
        assert s.inbox + replies == replies;
        var s1 := s.(inbox := replies, broken := broken);
        ProcessingTakes(user, s1);
        TakesTransfers(s, s1, ProcessCallbacks(user, s1));
    }
  }

  lemma TakesTransfers(s: Ctx, s1: Ctx, t: Ctx)
    requires s1 == s.(inbox := s1.inbox, broken := s1.broken) && Takes(s1, t)
    ensures Transfers(s, t, s1.inbox, [])
  {
    hide Over, Buffered;
  }

  lemma WriteTransfers(user: User, s: Ctx, w: WriteResult)
    requires s.inbox == []
    ensures Transfers(s, HandleWrite(user, s, w), [],
                      if s.err || w.WriteError? then [] else if w.n < |s.obuf| then s.obuf[..w.n] else s.obuf)
  {
    hide DisconnectNow, Quiet, Over;
    QuietRefl(s);
    if s.err {
      DisconnectQuiet(user, s);
      QuietTransfers(s, DisconnectNow(user, s));
    } else {
      match w
      case WriteError =>
        DisconnectQuiet(user, s.(err := true));
        ErrorQuietThen(s, DisconnectNow(user, s.(err := true)));
        QuietTransfers(s, DisconnectNow(user, s.(err := true)));
      case Written(n) =>
        assert s.commands[|s.commands|..] == [] && s.received + [] == s.received && s.obuf + [] == s.obuf;
    }
  }

  lemma CallTransfers(user: User, s: Ctx, call: Call)
    requires s.inbox == []
    ensures Transfers(s, Handle(user, s, UserCall(call)), [], [])
  {
    hide Quiet, Transfers, Submit, AsyncDisconnect, AsyncFree, Over;
    match call
    case Command(fn, cmd) =>
      SubmitQuiet(s, fn, cmd);
      QuietTransfers(s, Submit(s, fn, cmd));
    case Disconnect =>
      AsyncDisconnectQuiet(user, s);
      QuietTransfers(s, AsyncDisconnect(user, s));
    case Free =>
      AsyncFreeQuiet(user, s);
      QuietTransfers(s, AsyncFree(user, s));
  }

  lemma AsyncDisconnectQuiet(user: User, s: Ctx)
    ensures Quiet(s, AsyncDisconnect(user, s))
  {
    hide Quiet, DisconnectNow, Over;
    FlagQuiet(s, true);
    if s.queue == [] {
      DisconnectQuiet(user, s.(disconnecting := true));
      QuietTrans(s, s.(disconnecting := true), DisconnectNow(user, s.(disconnecting := true)));
    }
  }

  lemma AsyncFreeQuiet(user: User, s: Ctx)
    ensures Quiet(s, AsyncFree(user, s))
  {
    hide Quiet, Teardown, Over;
    FlagQuiet(s, false);
    TeardownQuiet(user, s.(freeing := true));
    QuietTrans(s, s.(freeing := true), Teardown(user, s.(freeing := true)));
  }

  lemma FlagQuiet(s: Ctx, disconnect: bool)
    ensures Quiet(s, if disconnect then s.(disconnecting := true) else s.(freeing := true))
  {
    QuietRefl(s);
  }

  lemma HandleTransfers(user: User, s: Ctx, input: Input)
    requires s.inbox == []
    ensures Transfers(s, Handle(user, s, input), ReadBy(user, s, input), WrittenBy(user, s, input))
  {
    hide Quiet, Transfers, HandleConnect, HandleRead, HandleWrite, Over, IsReleased;
    match input
    case UserCall(call) => CallTransfers(user, s, call);
    case Readable(c, r) =>
      var s1 := Settled(user, s, c);
      SettledQuiet(user, s, c);
      QuietInbox(s, s1);
      if s1.connected && !IsReleased(s1) {
        ReadTransfers(user, s1, r);
        QuietThenTransfers(s, s1, HandleRead(user, s1, r), ReadBy(user, s, input), []);
      } else {
        QuietTransfers(s, s1);
      }
    case Writable(c, w) =>
      var s1 := Settled(user, s, c);
      SettledQuiet(user, s, c);
      QuietInbox(s, s1);
      if s1.connected && !IsReleased(s1) {
        WriteTransfers(user, s1, w);
        QuietThenTransfers(s, s1, HandleWrite(user, s1, w), [], WrittenBy(user, s, input));
      } else {
        QuietTransfers(s, s1);
      }
  }

  lemma QuietInbox(s: Ctx, t: Ctx)
    requires Quiet(s, t)
    ensures t.inbox == s.inbox
  {
  }

  lemma QuietThenTransfers(s: Ctx, t: Ctx, u: Ctx, read: seq<Reply>, written: Bytes)
    requires Quiet(s, t) && Transfers(t, u, read, written)
    ensures Transfers(s, u, read, written)
  {
    hide Over, Buffered;
    BufferedTrans(s.commands, s.obuf, t.commands, t.obuf, [], u.commands, u.obuf, written);
    assert [] + written == written;
  }

  /** Over a whole run, what is received is what the reader delivered, and what is written is what was accepted. */
  lemma {:induction false} RunTransfers(user: User, s: Ctx, inputs: seq<Input>)
    requires !Over(s) && s.inbox == []
    ensures Transfers(s, Run(user, s, inputs), AllRead(user, s, inputs), AllWritten(user, s, inputs))
    decreases |inputs|
  {
    hide Transfers, Handle, ReadBy, WrittenBy, Over, Quiet;
    QuietRefl(s);
    if inputs == [] {
      QuietTransfers(s, s);
    } else {
      var t := Handle(user, s, inputs[0]);
      var read, written := ReadBy(user, s, inputs[0]), WrittenBy(user, s, inputs[0]);
      HandleTransfers(user, s, inputs[0]);
      if Over(t) {
        assert read + [] == read && written + [] == written;
      } else {
        TransfersInbox(s, t, read, written);
        RunTransfers(user, t, inputs[1..]);
        TransfersTrans(s, t, Run(user, t, inputs[1..]), read, AllRead(user, t, inputs[1..]),
                       written, AllWritten(user, t, inputs[1..]));
      }
    }
  }

  lemma TransfersInbox(s: Ctx, t: Ctx, read: seq<Reply>, written: Bytes)
    requires Transfers(s, t, read, written) && !Over(t)
    ensures t.inbox == []
  {
  }

  /**
   Every run: the bytes written and those still buffered are the accepted commands, in submission order and
   without gaps.
   */
  lemma WireTheorem(user: User, inputs: seq<Input>)
    ensures var t := Run(user, START, inputs);
            |t.commands| == |t.accepted| && AllWritten(user, START, inputs) + t.obuf == Concat(t.commands)
  {
    hide Run, AllRead, AllWritten;
    RunTransfers(user, START, inputs);
    var t := Run(user, START, inputs);
    assert t.commands[0..] == t.commands && [] + Concat(t.commands) == Concat(t.commands);
  }

  lemma RunReads(user: User, inputs: seq<Input>)
    ensures var t := Run(user, START, inputs);
            && t.received <= AllRead(user, START, inputs)
            && (!Over(t) ==> t.received == AllRead(user, START, inputs))
  {
    hide Run, AllRead, AllWritten;
    RunTransfers(user, START, inputs);
    assert [] + AllRead(user, START, inputs) == AllRead(user, START, inputs);
  }

  /** What the log of a run must look like when `done` of its commands have been answered. */
  predicate Delivers(s: Ctx, done: nat) {
    && done <= |s.accepted|
    && (forall i | 0 <= i < |s.accepted| :: s.accepted[i].id == i)
    && s.log == Outcomes(s.accepted[..done], s.received) + if IsReleased(s) then [Released(false)] else []
  }

  /**
   Every run: the callbacks of the answered commands ran exactly once each, in submission order, the k-th
   with the k-th reply that the reader delivered or, at teardown, with NULL; no reply is skipped, and none is left
   unless the run is over; the context is released at most once, as the last
   event, never while a callback runs, and then every accepted command has been answered; the assertion
   of a clean disconnect never fails, and the other one only on a reply that no command asked for.
   */
  lemma DeliveryTheorem(user: User, inputs: seq<Input>)
    ensures var t := Run(user, START, inputs);
            && !t.uncleanAssert && !t.inCallback
            && t.received <= AllRead(user, START, inputs)
            && (!Over(t) ==> t.received == AllRead(user, START, inputs))
            && (t.unsolicitedAssert ==> |t.received| == |t.accepted|)
            && if IsReleased(t) then Delivers(t, |t.accepted|) && |t.received| <= |t.accepted|
               else Delivers(t, |t.received|)
  {
    hide Run, AllRead, AllWritten;
    assert START.accepted[0..] == [] && START.accepted[..0] == [];
    RunAnswers(user, START, inputs);
    var t := Run(user, START, inputs);
    RunReads(user, inputs);
    if Gone(t) {
      assert t.accepted[..|t.accepted|] == t.accepted;
    } else {
      LiveIsNotReleased(t);
      assert t.log == t.log + [];
    }
  }

  /** Position `i` of the list of answered commands, seen through the log. */
  lemma {:induction false} OutcomesCount(cbs: seq<Cb>, received: seq<Reply>, i: nat)
    requires i < |cbs| && Numbered(cbs, 0)
    ensures multiset(Outcomes(cbs, received))[Called(i, Answer(i, received))] == if cbs[i].fn then 1 else 0
    decreases |cbs|
  {
    var n := |cbs| - 1;
    var e := Called(i, Answer(i, received));
    if i < n {
      OutcomesCount(cbs[..n], received, i);
    } else {
      OutcomesBelow(cbs[..n], received);
      assert e !in Outcomes(cbs[..n], received);
    }
  }

  lemma {:induction false} OutcomesBelow(cbs: seq<Cb>, received: seq<Reply>)
    ensures forall e | e in Outcomes(cbs, received) :: e.Called? && e.id < |cbs| && e.reply == Answer(e.id, received)
    decreases |cbs|
  {
    if cbs != [] {
      OutcomesBelow(cbs[..|cbs| - 1], received);
    }
  }

  // ---------- Closing ----------

  lemma {:induction false} ProcessingWhileClosing(user: User, s: Ctx)
    requires Closing(s)
    ensures var t := ProcessCallbacks(user, s); Closing(t) && t.accepted == s.accepted && t.obuf == s.obuf
    decreases |s.inbox|
  {
    if s.inbox == [] {
      if s.broken {
        DisconnectWhileClosing(user, s.(err := true));
      } else if s.disconnecting && s.obuf == [] && s.queue == [] {
        DisconnectWhileClosing(user, s);
      }
    } else {
      var reply, s1 := s.inbox[0], s.(inbox := s.inbox[1..]);
      if s1.queue == [] {
        if reply.Error? { DisconnectWhileClosing(user, s1.(err := true)); }
      } else {
        var s2 := s1.(queue := s1.queue[1..], received := s1.received + [reply]);
        CallbackWhileClosing(user, s2, s1.queue[0], Some(reply));
        CallbackKeepsInbox(user, s2, s1.queue[0], Some(reply));
        var s3 := RunCallback(user, s2, s1.queue[0], Some(reply));
        if s1.queue[0].fn && s3.freeing {
          DrainWhileClosing(user, s3);
        } else {
          ProcessingWhileClosing(user, s3);
        }
      }
    }
  }

  lemma {:induction false} DrainWhileClosing(user: User, s: Ctx)
    requires Closing(s)
    ensures var t := Drain(user, s); Closing(t) && t.accepted == s.accepted && t.obuf == s.obuf
    decreases |s.queue|
  {
    if s.queue != [] {
      var s1 := s.(queue := s.queue[1..]);
      CallbackWhileClosing(user, s1, s.queue[0], None);
      DrainWhileClosing(user, RunCallback(user, s1, s.queue[0], None));
    }
  }

  lemma DisconnectWhileClosing(user: User, s: Ctx)
    requires Closing(s)
    ensures var t := DisconnectNow(user, s); Closing(t) && t.accepted == s.accepted && t.obuf == s.obuf
  {
    DrainWhileClosing(user, s.(disconnecting := true));
    DrainWhileClosing(user, s);
  }

  lemma ConnectWhileClosing(user: User, s: Ctx, c: Connecting)
    requires Closing(s)
    ensures var t := HandleConnect(user, s, c); Closing(t) && t.accepted == s.accepted
  {
    DisconnectWhileClosing(user, s.(err := true));
  }

  lemma ReadWhileClosing(user: User, s: Ctx, r: ReadResult)
    requires Closing(s)
    ensures var t := HandleRead(user, s, r); Closing(t) && t.accepted == s.accepted
  {
    if s.err {
      DisconnectWhileClosing(user, s);
    } else if r.ReadError? {
      DisconnectWhileClosing(user, s.(err := true));
    } else {
      ProcessingWhileClosing(user, s.(inbox := s.inbox + r.replies, broken := r.broken));
    }
  }

  lemma WriteWhileClosing(user: User, s: Ctx, w: WriteResult)
    requires Closing(s)
    ensures var t := HandleWrite(user, s, w); Closing(t) && t.accepted == s.accepted
  {
    if s.err {
      DisconnectWhileClosing(user, s);
    } else if w.WriteError? {
      DisconnectWhileClosing(user, s.(err := true));
    }
  }

  lemma HandleWhileClosing(user: User, s: Ctx, input: Input)
    requires Closing(s)
    ensures var t := Handle(user, s, input); Closing(t) && t.accepted == s.accepted
  {
    hide HandleConnect, HandleRead, HandleWrite, DisconnectNow, Drain;
    match input
    case UserCall(call) =>
      DisconnectWhileClosing(user, s.(disconnecting := true));
      DrainWhileClosing(user, s.(freeing := true));
    case Readable(c, r) =>
      ConnectWhileClosing(user, s, c);
      ReadWhileClosing(user, if s.connected then s else HandleConnect(user, s, c), r);
    case Writable(c, w) =>
      ConnectWhileClosing(user, s, c);
      WriteWhileClosing(user, if s.connected then s else HandleConnect(user, s, c), w);
  }

  /** Once a disconnect or a free was asked for, no command is ever accepted again. */
  lemma {:induction false} ClosingTheorem(user: User, s: Ctx, inputs: seq<Input>)
    requires Closing(s)
    ensures var t := Run(user, s, inputs); Closing(t) && t.accepted == s.accepted
    decreases |inputs|
  {
    if inputs != [] && !Over(s) {
      HandleWhileClosing(user, s, inputs[0]);
      ClosingTheorem(user, Handle(user, s, inputs[0]), inputs[1..]);
    }
  }
}
