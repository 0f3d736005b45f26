/**
 What the calls of a program amount to, in every run of the machine of `AsyncModel`: which commands are accepted,
 when the context is closing, and exactly which events end it. Calls are those made from outside and those of the
 callbacks that got a reply, in the order in which they are made.
 */
module AsyncCalls {
  import opened ByteStrings
  import opened Resp
  import opened AsyncModel

  // ---------- The calls of a run ----------

  /** The calls of the callbacks that ran with a reply. */
  function CallsIn(user: User, log: seq<Event>): seq<Call> {
    if log == [] then []
    else
      var n := |log| - 1;
      CallsIn(user, log[..n]) + match log[n]
                                case Called(id, Some(reply)) => user(id, Some(reply))
                                case _ => []
  }

  /** What happened between two states. */
  function NewEvents(s: Ctx, t: Ctx): seq<Event> {
    if |s.log| <= |t.log| then t.log[|s.log|..] else []
  }

  function Direct(input: Input): seq<Call> {
    match input
    case UserCall(call) => [call]
    case _ => []
  }

  /** The calls that an input brings about: one from outside, and those of the callbacks it lets run. */
  function CallsBy(user: User, s: Ctx, input: Input): seq<Call> {
    Direct(input) + CallsIn(user, NewEvents(s, Handle(user, s, input)))
  }

  function AllCalls(user: User, s: Ctx, inputs: seq<Input>): seq<Call>
    decreases |inputs|
  {
    if inputs == [] || Over(s) then []
    else CallsBy(user, s, inputs[0]) + AllCalls(user, Handle(user, s, inputs[0]), inputs[1..])
  }

  /** The commands that are asked for before any disconnect and any free is. */
  function Asked(calls: seq<Call>): seq<Call> {
    if calls == [] || !calls[0].Command? then [] else [calls[0]] + Asked(calls[1..])
  }

  function Texts(calls: seq<Call>): seq<Bytes> {
    if calls == [] then [] else (if calls[0].Command? then [calls[0].cmd] else []) + Texts(calls[1..])
  }

  /** The callbacks of commands, numbered from `from` on. */
  function Callbacks(calls: seq<Call>, from: nat): seq<Cb> {
    if calls == [] then []
    else (if calls[0].Command? then [Cb(from, calls[0].fn)] else []) + Callbacks(calls[1..], from + 1)
  }

  predicate Closes(calls: seq<Call>) {
    Disconnect in calls || Free in calls
  }

  // ---------- Lists of calls ----------

  lemma {:induction false} CallsInAppend(user: User, a: seq<Event>, b: seq<Event>)
    ensures CallsIn(user, a + b) == CallsIn(user, a) + CallsIn(user, b)
    decreases |b|
  {
    if b == [] {
      assert a + b == a && CallsIn(user, a) + [] == CallsIn(user, a);
    } else {
      var n := |b| - 1;
      assert (a + b)[..|a + b| - 1] == a + b[..n] && (a + b)[|a + b| - 1] == b[n];
      CallsInAppend(user, a, b[..n]);
      var last := match b[n] case Called(id, Some(reply)) => user(id, Some(reply)) case _ => [];
      assert CallsIn(user, a) + CallsIn(user, b[..n]) + last == CallsIn(user, a) + (CallsIn(user, b[..n]) + last);
    }
  }

  lemma AskedFirst(call: Call, rest: seq<Call>)
    ensures Asked([call] + rest) == if call.Command? then [call] + Asked(rest) else []
    ensures Closes([call] + rest) <==> !call.Command? || Closes(rest)
  {
    assert ([call] + rest)[1..] == rest;
  }

  lemma {:induction false} AskedAppend(a: seq<Call>, b: seq<Call>)
    ensures Asked(a + b) == Asked(a) + if Closes(a) then [] else Asked(b)
    decreases |a|
  {
    hide Closes, Asked;
    if a == [] {
      assert a + b == b;
      AskedNothing();
    } else {
      var rest := a[1..];
      assert a == [a[0]] + rest && a + b == [a[0]] + (rest + b);
      AskedFirst(a[0], rest);
      AskedFirst(a[0], rest + b);
      AskedAppend(rest, b);
      var more := if Closes(rest) then [] else Asked(b);
      assert [a[0]] + (Asked(rest) + more) == [a[0]] + Asked(rest) + more;
    }
  }

  lemma AskedNothing()
    ensures Asked([]) == [] && !Closes([])
  {
  }

  lemma {:induction false} AskedCommands(calls: seq<Call>)
    ensures forall c | c in Asked(calls) :: c.Command?
  {
    if calls != [] { AskedCommands(calls[1..]); }
  }

  lemma {:induction false} TextsAppend(a: seq<Call>, b: seq<Call>)
    ensures Texts(a + b) == Texts(a) + Texts(b)
    decreases |a|
  {
    if a == [] {
      assert a + b == b;
    } else {
      assert (a + b)[1..] == a[1..] + b;
      TextsAppend(a[1..], b);
    }
  }

  lemma CallbacksStep(call: Call, calls: seq<Call>, from: nat)
    requires call.Command?
    ensures Callbacks([call] + calls, from) == [Cb(from, call.fn)] + Callbacks(calls, from + 1)
  {
    assert ([call] + calls)[1..] == calls;
  }

  lemma TextsNothing(from: nat)
    ensures Texts([]) == [] && Callbacks([], from) == []
  {
  }

  lemma {:induction false} CallbacksCount(calls: seq<Call>, from: nat)
    requires forall c | c in calls :: c.Command?
    ensures |Callbacks(calls, from)| == |calls|
  {
    if calls != [] { CallbacksCount(calls[1..], from + 1); }
  }

  lemma {:induction false} CallbacksAppend(a: seq<Call>, b: seq<Call>, from: nat)
    requires forall c | c in a :: c.Command?
    ensures Callbacks(a + b, from) == Callbacks(a, from) + Callbacks(b, from + |a|)
    decreases |a|
  {
    hide Callbacks;
    if a == [] {
      assert a + b == b;
      TextsNothing(from);
    } else {
      var rest := a[1..];
      CallbacksStep(a[0], rest, from);
      CallbacksStep(a[0], rest + b, from);
      assert [a[0]] + rest == a && [a[0]] + (rest + b) == a + b;
      CallbacksAppend(rest, b, from + 1);
    }
  }

  // ---------- What one step admits ----------

  function Open(s: Ctx, calls: seq<Call>): seq<Call> {
    if Closing(s) then [] else Asked(calls)
  }

  /** From `s` to `t` exactly the commands among the calls were accepted that came while the context was not closing. */
  predicate Accepts(s: Ctx, t: Ctx, calls: seq<Call>) {
    && t.commands == s.commands + Texts(Open(s, calls))
    && t.accepted == s.accepted + Callbacks(Open(s, calls), |s.accepted|)
  }

  /** The context is closing as far as that was asked for. */
  predicate Flagged(s: Ctx, t: Ctx, calls: seq<Call>) {
    && (t.disconnecting <==> s.disconnecting || Disconnect in calls)
    && (t.freeing <==> s.freeing || Free in calls)
  }

  predicate Logs(user: User, s: Ctx, t: Ctx, calls: seq<Call>) {
    s.log <= t.log && CallsIn(user, t.log[|s.log|..]) == calls
  }

  lemma AcceptsNothing(s: Ctx, t: Ctx)
    requires t.commands == s.commands && t.accepted == s.accepted
    ensures Accepts(s, t, [])
    ensures Closing(s) ==> forall calls :: Accepts(s, t, calls)
  {
    assert s.commands + [] == s.commands && s.accepted + [] == s.accepted;
  }

  lemma OpenAppend(s: Ctx, t: Ctx, a: seq<Call>, b: seq<Call>)
    requires Flagged(s, t, a)
    ensures Open(s, a + b) == Open(s, a) + Open(t, b)
    ensures forall c | c in Open(s, a) :: c.Command?
  {
    AskedAppend(a, b);
    AskedCommands(a);
    hide Asked;
    assert Asked(a) + [] == Asked(a);
  }

  lemma AcceptsTrans(s: Ctx, t: Ctx, u: Ctx, a: seq<Call>, b: seq<Call>)
    requires Accepts(s, t, a) && Flagged(s, t, a) && Accepts(t, u, b)
    ensures Accepts(s, u, a + b)
  {
    hide Texts, Callbacks, Asked, Open, Flagged;
    var first, more, n := Open(s, a), Open(t, b), |s.accepted|;
    OpenAppend(s, t, a, b);
    TextsAppend(first, more);
    CallbacksAppend(first, more, n);
    CallbacksCount(first, n);
    assert s.commands + Texts(first) + Texts(more) == s.commands + (Texts(first) + Texts(more));
    assert s.accepted + Callbacks(first, n) + Callbacks(more, n + |first|)
        == s.accepted + (Callbacks(first, n) + Callbacks(more, n + |first|));
  }

  lemma FlaggedTrans(s: Ctx, t: Ctx, u: Ctx, a: seq<Call>, b: seq<Call>)
    requires Flagged(s, t, a) && Flagged(t, u, b)
    ensures Flagged(s, u, a + b)
  {
  }

  lemma LogsTrans(user: User, s: Ctx, t: Ctx, u: Ctx, a: seq<Call>, b: seq<Call>)
    requires Logs(user, s, t, a) && Logs(user, t, u, b)
    ensures Logs(user, s, u, a + b)
  {
    var first, more := t.log[|s.log|..], u.log[|t.log|..];
    assert u.log == t.log + more && t.log == s.log + first;
    assert u.log[|s.log|..] == first + more;
    CallsInAppend(user, first, more);
  }

  lemma LogsNothing(user: User, s: Ctx, t: Ctx)
    requires t.log == s.log
    ensures Logs(user, s, t, [])
  {
    assert t.log[|s.log|..] == [];
  }

  lemma LogsOne(user: User, s: Ctx, t: Ctx, e: Event)
    requires t.log == s.log + [e]
    ensures Logs(user, s, t, match e case Called(id, Some(reply)) => user(id, Some(reply)) case _ => [])
  {
    var events := t.log[|s.log|..];
    assert events == [e] && events[..0] == [];
    assert CallsIn(user, []) == [];
    var calls := match e case Called(id, Some(reply)) => user(id, Some(reply)) case _ => [];
    assert CallsIn(user, events) == [] + calls == calls;
  }

  lemma SingleCall(call: Call, from: nat)
    ensures Asked([call]) == if call.Command? then [call] else []
    ensures call.Command? ==> Texts([call]) == [call.cmd] && Callbacks([call], from) == [Cb(from, call.fn)]
    ensures Disconnect in [call] <==> call == Disconnect
    ensures Free in [call] <==> call == Free
  {
    assert [call][1..] == [];
    assert Texts([]) == [] && Callbacks([], from + 1) == [] && Asked([]) == [];
  }

  lemma OneCall(s: Ctx, call: Call)
    ensures var t := PerformOne(s, call); Accepts(s, t, [call]) && Flagged(s, t, [call]) && t.log == s.log
  {
    OneAccepts(s, call);
    OneFlags(s, call);
    hide Accepts, Flagged;
  }

  lemma OneFlags(s: Ctx, call: Call)
    ensures Flagged(s, PerformOne(s, call), [call])
  {
    SingleCall(call, 0);
    hide Asked, Texts, Callbacks;
  }

  lemma OneAccepts(s: Ctx, call: Call)
    ensures Accepts(s, PerformOne(s, call), [call])
  {
    hide Asked, Texts, Callbacks;
    SingleCall(call, |s.accepted|);
    TextsNothing(|s.accepted|);
    assert s.commands + [] == s.commands && s.accepted + [] == s.accepted;
  }

  lemma {:induction false} PerformAccepts(s: Ctx, calls: seq<Call>)
    ensures var t := Perform(s, calls); Accepts(s, t, calls) && Flagged(s, t, calls) && t.log == s.log
    decreases |calls|
  {
    hide PerformOne, Accepts, Closing;
    if calls == [] {
      AcceptsNothing(s, s);
    } else {
      var t := PerformOne(s, calls[0]);
      OneCall(s, calls[0]);
      PerformAccepts(t, calls[1..]);
      AcceptsTrans(s, t, Perform(t, calls[1..]), [calls[0]], calls[1..]);
      FlaggedTrans(s, t, Perform(t, calls[1..]), [calls[0]], calls[1..]);
      assert [calls[0]] + calls[1..] == calls;
    }
  }

  // ---------- Callbacks ----------

  function MadeBy(user: User, cb: Cb, reply: Option<Reply>): seq<Call> {
    if cb.fn && reply.Some? then user(cb.id, reply) else []
  }

  /** A callback with a reply makes its calls; one without a reply runs only while the context is closing. */
  lemma CallbackAccepts(user: User, s: Ctx, cb: Cb, reply: Option<Reply>)
    requires reply.None? ==> Closing(s)
    ensures var t, calls := RunCallback(user, s, cb, reply), MadeBy(user, cb, reply);
            Logs(user, s, t, calls) && Accepts(s, t, calls) && (reply.Some? ==> Flagged(s, t, calls))
  {
    hide Perform, Accepts, Logs;
    var t := RunCallback(user, s, cb, reply);
    if cb.fn {
      var s1 := s.(inCallback := true, log := s.log + [Called(cb.id, reply)]);
      PerformAccepts(s1, user(cb.id, reply));
      LogsOne(user, s, t, Called(cb.id, reply));
      assert Accepts(s, t, user(cb.id, reply)) by { SameAccepts(s, s1, Perform(s1, user(cb.id, reply)), t, user(cb.id, reply)); }
      if reply.None? {
        ClosedAccepts(s, t, user(cb.id, reply));
      }
    } else {
      LogsNothing(user, s, s);
      AcceptsNothing(s, s);
    }
  }

  lemma SameAccepts(s: Ctx, s1: Ctx, t1: Ctx, t: Ctx, calls: seq<Call>)
    requires Accepts(s1, t1, calls) && Closing(s) == Closing(s1)
    requires s.commands == s1.commands && s.accepted == s1.accepted && t.commands == t1.commands && t.accepted == t1.accepted
    ensures Accepts(s, t, calls)
  {
  }

  lemma ClosedAccepts(s: Ctx, t: Ctx, calls: seq<Call>)
    requires Closing(s) && Accepts(s, t, calls)
    ensures t.commands == s.commands && t.accepted == s.accepted && Accepts(s, t, [])
  {
    assert s.commands + [] == s.commands && s.accepted + [] == s.accepted;
  }

  // ---------- Teardown ----------

  /** From `s` to `t` no call counted: nothing was accepted, and only callbacks without a reply ran. */
  predicate Silent(user: User, s: Ctx, t: Ctx) {
    Logs(user, s, t, []) && t.commands == s.commands && t.accepted == s.accepted
  }

  lemma SilentTrans(user: User, s: Ctx, t: Ctx, u: Ctx)
    requires Silent(user, s, t) && Silent(user, t, u)
    ensures Silent(user, s, u)
  {
    hide Logs;
    var none: seq<Call> := [];
    LogsTrans(user, s, t, u, none, none);
    assert none + none == none;
  }

  lemma {:induction false} DrainSilent(user: User, s: Ctx)
    requires Closing(s)
    ensures Silent(user, s, Drain(user, s))
    decreases |s.queue|
  {
    hide RunCallback, Logs, Accepts;
    if s.queue == [] {
      LogsNothing(user, s, s);
    } else {
      var s1 := s.(queue := s.queue[1..]);
      var t := RunCallback(user, s1, s.queue[0], None);
      CallbackWhileClosing(user, s1, s.queue[0], None);
      CallbackAccepts(user, s1, s.queue[0], None);
      ClosedAccepts(s1, t, []);
      DrainSilent(user, t);
      QueueApart(user, s, s1, t);
      hide Silent;
      SilentTrans(user, s, t, Drain(user, t));
    }
  }

  lemma QueueApart(user: User, s: Ctx, s1: Ctx, t: Ctx)
    requires s.log == s1.log && s.commands == s1.commands && s.accepted == s1.accepted
    requires Logs(user, s1, t, []) && t.commands == s1.commands && t.accepted == s1.accepted
    ensures Silent(user, s, t)
  {
  }

  lemma TeardownSilent(user: User, s: Ctx)
    requires Closing(s)
    ensures Silent(user, s, Teardown(user, s)) && IsReleased(Teardown(user, s))
  {
    hide Drain, Logs;
    var s1 := Drain(user, s);
    DrainSilent(user, s);
    LogsOne(user, s1, Teardown(user, s), Released(s1.inCallback));
    SilentTrans(user, s, s1, Teardown(user, s));
  }

  lemma DisconnectSilent(user: User, s: Ctx)
    requires s.err || Closing(s)
    ensures var t := DisconnectNow(user, s); Silent(user, s, t) && Over(t)
  {
    hide Teardown, Logs;
    if s.err {
      var s1 := s.(disconnecting := true);
      TeardownSilent(user, s1);
      QueueApart(user, s, s1, Teardown(user, s1));
    } else if s.queue != [] {
      LogsNothing(user, s, s.(uncleanAssert := true));
    } else {
      TeardownSilent(user, s);
    }
  }

  // ---------- A batch of replies ----------

  /** Between two states, with the calls made in between: what was accepted, and what is flagged unless all is over. */
  predicate Admits(user: User, s: Ctx, t: Ctx, calls: seq<Call>) {
    Logs(user, s, t, calls) && Accepts(s, t, calls) && (!Over(t) ==> Flagged(s, t, calls))
  }

  lemma SilentAdmits(user: User, s: Ctx, t: Ctx)
    requires Silent(user, s, t) && (Over(t) || (t.disconnecting == s.disconnecting && t.freeing == s.freeing))
    ensures Admits(user, s, t, [])
  {
    hide Logs, Over;
    AcceptsNothing(s, t);
  }

  lemma AdmitsTrans(user: User, s: Ctx, t: Ctx, u: Ctx, a: seq<Call>, b: seq<Call>)
    requires Logs(user, s, t, a) && Accepts(s, t, a) && Flagged(s, t, a) && Admits(user, t, u, b)
    ensures Admits(user, s, u, a + b)
  {
    hide Logs, Accepts, Flagged, Over;
    LogsTrans(user, s, t, u, a, b);
    AcceptsTrans(s, t, u, a, b);
    if !Over(u) { FlaggedTrans(s, t, u, a, b); }
  }

  /**
   How a batch of replies goes: with the calls of its callbacks, it ends the context if and only if a free is asked
   for, a reply is left that no command waits for, the reader is broken behind the replies, or a disconnect is asked
   for, all is written and every command is answered. A reply that no command waits for releases the context if it
   is an error, and else fails the assertion.
   */
  predicate BatchEnd(s: Ctx, t: Ctx, calls: seq<Call>) {
    var all, d, f := s.received + s.inbox, s.disconnecting || Disconnect in calls, s.freeing || Free in calls;
    && (Over(t) <==> f || t.received != all || s.broken || (d && t.obuf == [] && |t.received| == |t.accepted|))
    && t.received <= all
    && (t.received != all && !f ==>
          |t.received| == |t.accepted| && (IsReleased(t) <==> all[|t.received|].Error?))
  }

  predicate Ready(s: Ctx) {
    Live(s) && !s.unsolicitedAssert
  }

  lemma ReadyCounts(s: Ctx)
    requires Ready(s)
    ensures |s.accepted| == |s.received| + |s.queue| && !Over(s) && !s.freeing && !IsReleased(s)
  {
    LiveIsNotReleased(s);
  }

  lemma BatchOver(user: User, s: Ctx)
    requires Ready(s) && s.inbox == []
    ensures var t := ProcessCallbacks(user, s); Admits(user, s, t, []) && BatchEnd(s, t, [])
  {
    hide DisconnectNow, Live, IsReleased, Silent, Admits;
    ReadyCounts(s);
    assert s.received + [] == s.received;
    if s.broken {
      var s1 := s.(err := true);
      DisconnectSilent(user, s1);
      DisconnectQuiet(user, s1);
      ErrorApart(user, s, s1, DisconnectNow(user, s1));
      SilentAdmits(user, s, DisconnectNow(user, s1));
    } else if s.disconnecting && s.obuf == [] && s.queue == [] {
      var t := DisconnectNow(user, s);
      DisconnectSilent(user, s);
      DisconnectQuiet(user, s);
      DisconnectWhileClosing(user, s);
      SilentAdmits(user, s, t);
    } else {
      SilentSelf(user, s, s);
      SilentAdmits(user, s, s);
    }
  }

  lemma SilentSelf(user: User, s: Ctx, t: Ctx)
    requires t.log == s.log && t.commands == s.commands && t.accepted == s.accepted
    ensures Silent(user, s, t)
  {
    LogsNothing(user, s, t);
  }

  lemma ErrorApart(user: User, s: Ctx, s1: Ctx, t: Ctx)
    requires Silent(user, s1, t) && s.log == s1.log && s.commands == s1.commands && s.accepted == s1.accepted
    ensures Silent(user, s, t)
  {
  }

  lemma BatchUnasked(user: User, s: Ctx)
    requires Ready(s) && s.inbox != [] && s.queue == []
    ensures var t := ProcessCallbacks(user, s); Admits(user, s, t, []) && BatchEnd(s, t, [])
  {
    hide DisconnectNow, Live, Silent, Admits;
    ReadyCounts(s);
    var s1 := s.(inbox := s.inbox[1..]);
    assert (s.received + s.inbox)[|s.received|] == s.inbox[0];
    if s.inbox[0].Error? {
      var s2 := s1.(err := true);
      var t := DisconnectNow(user, s2);
      DisconnectSilent(user, s2);
      DisconnectQuiet(user, s2);
      ErrorReleases(user, s2);
      ErrorApart(user, s, s2, t);
      SilentAdmits(user, s, t);
    } else {
      var t := s1.(unsolicitedAssert := true);
      SilentSelf(user, s, t);
      SilentAdmits(user, s, t);
    }
  }

  lemma ErrorReleases(user: User, s: Ctx)
    requires s.err
    ensures IsReleased(DisconnectNow(user, s))
  {
    hide Teardown;
    TeardownSilent(user, s.(disconnecting := true));
  }

  /** One reply for a command that waits for it. */
  lemma BatchStep(user: User, s: Ctx)
    requires Ready(s) && s.inbox != [] && s.queue != []
    ensures var reply, cb := s.inbox[0], s.queue[0];
            var s3 := RunCallback(user, s.(inbox := s.inbox[1..], queue := s.queue[1..], received := s.received + [reply]), cb, Some(reply));
            var calls := MadeBy(user, cb, Some(reply));
            && Logs(user, s, s3, calls) && Accepts(s, s3, calls) && Flagged(s, s3, calls)
            && s3.inbox == s.inbox[1..] && s3.received == s.received + [reply] && s3.broken == s.broken
            && (!s3.freeing ==> Ready(s3)) && (!cb.fn ==> !s3.freeing)
  {
    hide RunCallback, Consistent, Accepts, Logs, MadeBy, Flagged;
    var reply, cb := s.inbox[0], s.queue[0];
    var s1 := s.(inbox := s.inbox[1..]);
    var s2 := s1.(queue := s.queue[1..], received := s.received + [reply]);
    InboxApart(s, s1);
    Answered(user, s1, Some(reply));
    CallbackAccepts(user, s2, cb, Some(reply));
    CallbackKeepsInbox(user, s2, cb, Some(reply));
    CallbackKeepsBroken(user, s2, cb, Some(reply));
    NotFreeing(user, s2, cb, Some(reply));
    FromTaken(user, s, s2, RunCallback(user, s2, cb, Some(reply)), MadeBy(user, cb, Some(reply)));
  }

  lemma CallbackKeepsBroken(user: User, s: Ctx, cb: Cb, reply: Option<Reply>)
    ensures RunCallback(user, s, cb, reply).broken == s.broken
  {
    if cb.fn {
      PerformGrows(s.(inCallback := true, log := s.log + [Called(cb.id, reply)]), user(cb.id, reply));
    }
  }

  lemma FromTaken(user: User, s: Ctx, s2: Ctx, t: Ctx, calls: seq<Call>)
    requires s2 == s.(inbox := s2.inbox, queue := s2.queue, received := s2.received)
    requires Logs(user, s2, t, calls) && Accepts(s2, t, calls) && Flagged(s2, t, calls)
    ensures Logs(user, s, t, calls) && Accepts(s, t, calls) && Flagged(s, t, calls)
  {
  }

  lemma {:induction false} Batch(user: User, s: Ctx) returns (calls: seq<Call>)
    requires Ready(s)
    ensures var t := ProcessCallbacks(user, s); Admits(user, s, t, calls) && BatchEnd(s, t, calls)
    decreases |s.inbox|
  {
    hide RunCallback, ProcessCallbacks, Teardown, Ready, Accepts, Logs, Flagged, Admits, MadeBy, BatchEnd;
    if s.inbox == [] {
      BatchOver(user, s);
      calls := [];
    } else if s.queue == [] {
      BatchUnasked(user, s);
      calls := [];
    } else {
      var reply, cb := s.inbox[0], s.queue[0];
      var s2 := s.(inbox := s.inbox[1..], queue := s.queue[1..], received := s.received + [reply]);
      var s3 := RunCallback(user, s2, cb, Some(reply));
      var made := MadeBy(user, cb, Some(reply));
      BatchStep(user, s);
      ProcessStep(user, s);
      if cb.fn && s3.freeing {
        TeardownSilent(user, s3);
        TeardownQuiet(user, s3);
        SilentAdmits(user, s3, Teardown(user, s3));
        AdmitsTrans(user, s, s3, Teardown(user, s3), made, []);
        assert made + [] == made;
        calls := made;
        BatchFreed(s, s3, Teardown(user, s3), made);
      } else {
        var more := Batch(user, s3);
        AdmitsTrans(user, s, s3, ProcessCallbacks(user, s3), made, more);
        calls := made + more;
        BatchOn(s, s3, ProcessCallbacks(user, s3), made, more);
      }
    }
  }

  lemma BatchFreed(s: Ctx, s3: Ctx, t: Ctx, calls: seq<Call>)
    requires Ready(s) && s.inbox != [] && s3.received == s.received + [s.inbox[0]] && Flagged(s, s3, calls) && s3.freeing
    requires Over(t) && t.received == s3.received
    ensures BatchEnd(s, t, calls)
  {
    hide Over, IsReleased, Consistent;
    assert s.received + s.inbox == s3.received + s.inbox[1..];
  }

  lemma BatchOn(s: Ctx, s3: Ctx, t: Ctx, a: seq<Call>, b: seq<Call>)
    requires s.inbox != [] && s3.received == s.received + [s.inbox[0]] && s3.inbox == s.inbox[1..] && s3.broken == s.broken
    requires Flagged(s, s3, a) && BatchEnd(s3, t, b)
    ensures BatchEnd(s, t, a + b)
  {
    hide Over, IsReleased;
    assert s.received + s.inbox == s3.received + s3.inbox;
  }

  // ---------- One input ----------

  /** An input with the calls that it brings about. */
  predicate Answers(user: User, s: Ctx, t: Ctx, direct: seq<Call>, made: seq<Call>) {
    && Logs(user, s, t, made) && Accepts(s, t, direct + made) && (!Over(t) ==> Flagged(s, t, direct + made))
  }

  lemma AdmitsAnswers(user: User, s: Ctx, t: Ctx, calls: seq<Call>)
    requires Admits(user, s, t, calls)
    ensures Answers(user, s, t, [], calls)
  {
    hide Logs, Accepts, Flagged, Over;
    assert [] + calls == calls;
  }

  lemma CommandAnswered(user: User, s: Ctx, call: Call)
    requires Ready(s) && call.Command?
    ensures Answers(user, s, Handle(user, s, UserCall(call)), [call], [])
  {
    hide Ready, Over, Logs, Accepts;
    assert [call] + [] == [call];
    OneCall(s, call);
    LogsNothing(user, s, Handle(user, s, UserCall(call)));
  }

  lemma DisconnectAnswered(user: User, s: Ctx)
    requires Ready(s)
    ensures Answers(user, s, Handle(user, s, UserCall(Disconnect)), [Disconnect], [])
  {
    hide DisconnectNow, Ready, Over, Logs, Accepts, Silent;
    var t, s1 := Handle(user, s, UserCall(Disconnect)), s.(disconnecting := true);
    assert [Disconnect] + [] == [Disconnect];
    OneCall(s, Disconnect);
    if s.queue == [] {
      DisconnectSilent(user, s1);
      NotAccepted(user, s, s1, t, Disconnect);
    } else {
      LogsNothing(user, s, t);
    }
  }

  lemma FreeAnswered(user: User, s: Ctx)
    requires Ready(s)
    ensures Answers(user, s, Handle(user, s, UserCall(Free)), [Free], [])
  {
    hide Teardown, Ready, Logs, Accepts, Silent, Flagged;
    var t, s1 := Handle(user, s, UserCall(Free)), s.(freeing := true);
    assert [Free] + [] == [Free];
    TeardownSilent(user, s1);
    NotAccepted(user, s, s1, t, Free);
  }

  lemma CallAnswered(user: User, s: Ctx, call: Call)
    requires Ready(s)
    ensures Answers(user, s, Handle(user, s, UserCall(call)), [call], [])
  {
    hide Handle, Answers, Ready;
    match call
    case Command(_, _) => CommandAnswered(user, s, call);
    case Disconnect => DisconnectAnswered(user, s);
    case Free => FreeAnswered(user, s);
  }

  lemma NotAccepted(user: User, s: Ctx, s1: Ctx, t: Ctx, call: Call)
    requires Silent(user, s1, t) && s.log == s1.log && s.commands == s1.commands && s.accepted == s1.accepted && !call.Command?
    ensures Logs(user, s, t, []) && Accepts(s, t, [call])
  {
    assert Asked([call]) == [];
    assert s.commands + [] == s.commands && s.accepted + [] == s.accepted;
  }

  lemma SettledSilent(user: User, s: Ctx, c: Connecting)
    requires Ready(s)
    ensures var t := Settled(user, s, c);
            && Silent(user, s, t)
            && if s.connected then t == s
               else match c
                    case InProgress => t == s.(err := true)
                    case Refused => Over(t) && IsReleased(t)
                    case Established => t == s.(connected := true)
  {
    hide DisconnectNow, Ready, Logs;
    SilentSelf(user, s, s);
    SilentSelf(user, s, s.(err := true));
    SilentSelf(user, s, s.(connected := true));
    if !s.connected && c.Refused? {
      var s1 := s.(err := true);
      DisconnectSilent(user, s1);
      ErrorReleases(user, s1);
      ErrorApart(user, s, s1, DisconnectNow(user, s1));
    }
  }

  lemma SilentThen(user: User, s: Ctx, s1: Ctx, t: Ctx, calls: seq<Call>)
    requires s1 == s.(connected := s1.connected, err := s1.err, inbox := s1.inbox, broken := s1.broken)
    requires Admits(user, s1, t, calls)
    ensures Admits(user, s, t, calls)
  {
    hide Over, CallsIn, Texts, Callbacks;
  }

  /** What a batch of data does to the context, when it gets there. */
  lemma ReadAnswered(user: User, s: Ctx, r: ReadResult) returns (calls: seq<Call>)
    requires Ready(s) && s.inbox == []
    ensures var t := HandleRead(user, s, r);
            && Admits(user, s, t, calls)
            && if s.err || r.ReadError? then IsReleased(t)
               else BatchEnd(s.(inbox := r.replies, broken := r.broken), t, calls)
  {
    hide DisconnectNow, ProcessCallbacks, Silent, Admits, BatchEnd, Over, IsReleased, Consistent;
    if s.err || r.ReadError? {
      var s1 := s.(err := true);
      assert s.err ==> s1 == s;
      DisconnectSilent(user, s1);
      ErrorReleases(user, s1);
      ErrorApart(user, s, s1, DisconnectNow(user, s1));
      SilentAdmits(user, s, DisconnectNow(user, s1));
      calls := [];
    } else {
      var s1 := s.(inbox := r.replies, broken := r.broken);
      assert s.inbox + r.replies == r.replies;
      BrokenApart(s, s1);
      calls := Batch(user, s1);
      SilentThen(user, s, s1, ProcessCallbacks(user, s1), calls);
    }
  }

  lemma BrokenApart(s: Ctx, s1: Ctx)
    requires Ready(s) && s1 == s.(connected := s1.connected, inbox := s1.inbox, broken := s1.broken)
    ensures Ready(s1)
  {
  }

  lemma WriteAnswered(user: User, s: Ctx, w: WriteResult)
    requires Ready(s)
    ensures var t := HandleWrite(user, s, w);
            Admits(user, s, t, []) && (if s.err || w.WriteError? then IsReleased(t) else !Over(t))
  {
    hide DisconnectNow, Silent, Admits, Consistent;
    ReadyCounts(s);
    if s.err || w.WriteError? {
      var s1 := s.(err := true);
      assert s.err ==> s1 == s;
      DisconnectSilent(user, s1);
      ErrorReleases(user, s1);
      ErrorApart(user, s, s1, DisconnectNow(user, s1));
      SilentAdmits(user, s, DisconnectNow(user, s1));
    } else {
      SilentSelf(user, s, HandleWrite(user, s, w));
      SilentAdmits(user, s, HandleWrite(user, s, w));
    }
  }

  /** The event finds a context that is connected, or that it connects. */
  predicate Reaches(s: Ctx, c: Connecting) {
    s.connected || c.Established?
  }

  /** Exactly when an input ends the context. */
  predicate EndsAsSaid(s: Ctx, input: Input, t: Ctx, calls: seq<Call>) {
    match input
    case UserCall(Command(_, _)) => !Over(t)
    case UserCall(Disconnect) => Over(t) <==> |s.received| == |s.accepted|
    case UserCall(Free) => Over(t)
    case Readable(c, r) =>
      if !Reaches(s, c) then Over(t) <==> c.Refused?
      else if s.err || r.ReadError? then IsReleased(t)
      else BatchEnd(s.(inbox := r.replies, broken := r.broken), t, calls)
    case Writable(c, w) =>
      if !Reaches(s, c) then Over(t) <==> c.Refused?
      else IsReleased(t) == Over(t) == (s.err || w.WriteError?)
  }

  lemma InputAnswered(user: User, s: Ctx, input: Input) returns (made: seq<Call>)
    requires Ready(s) && s.inbox == []
    ensures var t := Handle(user, s, input); Answers(user, s, t, Direct(input), made) && EndsAsSaid(s, input, t, made)
  {
    hide HandleRead, HandleWrite, HandleConnect, DisconnectNow, Teardown, Answers, Admits, Silent, BatchEnd, Consistent;
    ReadyCounts(s);
    match input
    case UserCall(call) =>
      made := [];
      CallAnswered(user, s, call);
      CallEnds(user, s, call);
    case Readable(c, r) =>
      var s1 := Settled(user, s, c);
      SettledSilent(user, s, c);
      if Reaches(s, c) {
        BrokenApart(s, s1);
        ReadyCounts(s1);
        made := ReadAnswered(user, s1, r);
        SilentThen(user, s, s1, HandleRead(user, s1, r), made);
        if !s1.err && r.Data? {
          ConnectedApart(s.(inbox := r.replies, broken := r.broken), s1.(inbox := r.replies, broken := r.broken), HandleRead(user, s1, r), made);
        }
        AdmitsAnswers(user, s, HandleRead(user, s1, r), made);
      } else {
        made := [];
        ReleasedEnds(s1);
        SilentAdmits(user, s, s1);
        AdmitsAnswers(user, s, s1, []);
      }
    case Writable(c, w) =>
      var s1 := Settled(user, s, c);
      made := [];
      SettledSilent(user, s, c);
      if Reaches(s, c) {
        BrokenApart(s, s1);
        ReadyCounts(s1);
        WriteAnswered(user, s1, w);
        SilentThen(user, s, s1, HandleWrite(user, s1, w), made);
        AdmitsAnswers(user, s, HandleWrite(user, s1, w), made);
      } else {
        SilentAdmits(user, s, s1);
        AdmitsAnswers(user, s, s1, []);
      }
  }

  lemma ReleasedEnds(s: Ctx)
    ensures IsReleased(s) ==> Over(s)
  {
  }

  lemma ConnectedApart(s: Ctx, s1: Ctx, t: Ctx, calls: seq<Call>)
    requires s1 == s.(connected := s1.connected) && BatchEnd(s1, t, calls)
    ensures BatchEnd(s, t, calls)
  {
    hide Over, IsReleased;
  }

  lemma CallEnds(user: User, s: Ctx, call: Call)
    requires Ready(s)
    ensures EndsAsSaid(s, UserCall(call), Handle(user, s, UserCall(call)), [])
  {
    hide DisconnectNow, Teardown, Consistent;
    ReadyCounts(s);
    match call
    case Command(_, _) =>
    case Disconnect => if s.queue == [] { DisconnectSilent(user, s.(disconnecting := true)); }
    case Free => TeardownSilent(user, s.(freeing := true));
  }

  // ---------- What is remembered ----------

  lemma CallbackKeepsSocket(user: User, s: Ctx, cb: Cb, reply: Option<Reply>)
    ensures var t := RunCallback(user, s, cb, reply); t.connected == s.connected && t.err == s.err
  {
    if cb.fn {
      PerformGrows(s.(inCallback := true, log := s.log + [Called(cb.id, reply)]), user(cb.id, reply));
    }
  }

  lemma NothingKeepsSocket(user: User, s: Ctx)
    requires s.inbox == [] || s.queue == []
    ensures var t := ProcessCallbacks(user, s); Over(t) || (t.connected == s.connected && t.err == s.err)
  {
    hide DisconnectNow, IsReleased;
    if s.inbox == [] {
      if s.broken {
        DisconnectSilent(user, s.(err := true));
      } else if s.disconnecting {
        DisconnectSilent(user, s);
      }
    } else {
      DisconnectSilent(user, s.(inbox := s.inbox[1..], err := true));
    }
  }

  lemma {:induction false} BatchKeepsSocket(user: User, s: Ctx)
    requires Ready(s)
    ensures var t := ProcessCallbacks(user, s); Over(t) || (t.connected == s.connected && t.err == s.err)
    decreases |s.inbox|
  {
    hide RunCallback, ProcessCallbacks, Teardown, Ready, Accepts, Logs, Flagged, IsReleased, Quiet;
    if s.inbox == [] || s.queue == [] {
      NothingKeepsSocket(user, s);
    } else {
      var s2 := s.(inbox := s.inbox[1..], queue := s.queue[1..], received := s.received + [s.inbox[0]]);
      var s3 := RunCallback(user, s2, s.queue[0], Some(s.inbox[0]));
      BatchStep(user, s);
      ProcessStep(user, s);
      CallbackKeepsSocket(user, s2, s.queue[0], Some(s.inbox[0]));
      if s.queue[0].fn && s3.freeing {
        TeardownSilent(user, s3);
      } else {
        BatchKeepsSocket(user, s3);
      }
    }
  }

  /** What a context that lasts knows of its socket after an input. */
  predicate Remembers(s: Ctx, input: Input, t: Ctx) {
    match input
    case UserCall(_) => t.connected == s.connected && t.err == s.err
    case Readable(c, _) => t.connected == Reaches(s, c) && (t.err <==> s.err || (!s.connected && c.InProgress?))
    case Writable(c, _) => t.connected == Reaches(s, c) && (t.err <==> s.err || (!s.connected && c.InProgress?))
  }

  lemma InputRemembered(user: User, s: Ctx, input: Input)
    requires Ready(s) && s.inbox == []
    ensures var t := Handle(user, s, input); Over(t) || Remembers(s, input, t)
  {
    hide ProcessCallbacks, DisconnectNow, Teardown, Consistent, Silent, IsReleased;
    ReadyCounts(s);
    match input
    case UserCall(call) => CallRemembered(user, s, call);
    case Readable(c, r) =>
      var s1 := Settled(user, s, c);
      SettledSilent(user, s, c);
      if Reaches(s, c) {
        BrokenApart(s, s1);
        ReadRemembered(user, s1, r);
        ReadyCounts(s1);
      }
    case Writable(c, w) =>
      var s1 := Settled(user, s, c);
      SettledSilent(user, s, c);
      if Reaches(s, c) {
        BrokenApart(s, s1);
        WriteAnswered(user, s1, w);
        ReadyCounts(s1);
      }
  }

  lemma CallRemembered(user: User, s: Ctx, call: Call)
    ensures var t := Handle(user, s, UserCall(call)); Over(t) || (t.connected == s.connected && t.err == s.err)
  {
    hide DisconnectNow, Teardown;
    match call
    case Command(_, _) =>
    case Disconnect => DisconnectSilent(user, s.(disconnecting := true));
    case Free => TeardownSilent(user, s.(freeing := true));
  }

  lemma ReadRemembered(user: User, s: Ctx, r: ReadResult)
    requires Ready(s) && s.inbox == []
    ensures var t := HandleRead(user, s, r); Over(t) || (t.connected == s.connected && t.err == s.err)
  {
    hide ProcessCallbacks, DisconnectNow, Consistent, IsReleased;
    if s.err || r.ReadError? {
      DisconnectSilent(user, s.(err := true));
      assert s.err ==> s.(err := true) == s;
    } else {
      var s1 := s.(inbox := r.replies, broken := r.broken);
      assert s.inbox + r.replies == r.replies;
      BrokenApart(s, s1);
      BatchKeepsSocket(user, s1);
    }
  }

  // ---------- Whole runs ----------

  lemma ReadyAfter(user: User, s: Ctx, input: Input)
    requires Ready(s) && s.inbox == [] && !Over(Handle(user, s, input))
    ensures var t := Handle(user, s, input); Ready(t) && t.inbox == []
  {
    hide Handle, Live, Transfers, ReadBy, WrittenBy;
    HandleAnswers(user, s, input);
    HandleTransfers(user, s, input);
    TransfersInbox(s, Handle(user, s, input), ReadBy(user, s, input), WrittenBy(user, s, input));
  }

  lemma CallsKnown(user: User, s: Ctx, input: Input, made: seq<Call>)
    requires Logs(user, s, Handle(user, s, input), made)
    ensures CallsIn(user, NewEvents(s, Handle(user, s, input))) == made
    ensures CallsBy(user, s, input) == Direct(input) + made
  {
    hide Handle, CallsIn;
  }

  /** In every run the commands accepted are those asked for before any disconnect and any free, and so are their callbacks. */
  lemma {:induction false} RunAccepts(user: User, s: Ctx, inputs: seq<Input>)
    requires Ready(s) && s.inbox == []
    ensures var t, calls := Run(user, s, inputs), AllCalls(user, s, inputs);
            Accepts(s, t, calls) && (!Over(t) ==> Flagged(s, t, calls))
    decreases |inputs|
  {
    hide Handle, Live, Accepts, Logs, CallsBy, Over;
    ReadyCounts(s);
    if inputs == [] {
      AcceptsNothing(s, s);
    } else {
      var t := Handle(user, s, inputs[0]);
      var made := InputAnswered(user, s, inputs[0]);
      CallsKnown(user, s, inputs[0], made);
      var first := CallsBy(user, s, inputs[0]);
      if Over(t) {
        assert first + [] == first;
      } else {
        ReadyAfter(user, s, inputs[0]);
        RunAccepts(user, t, inputs[1..]);
        var more := AllCalls(user, t, inputs[1..]);
        AcceptsTrans(s, t, Run(user, t, inputs[1..]), first, more);
        if !Over(Run(user, t, inputs[1..])) { FlaggedTrans(s, t, Run(user, t, inputs[1..]), first, more); }
      }
    }
  }

  lemma StartReady()
    ensures Ready(START)
  {
    assert START.accepted[0..] == [] && START.accepted[..0] == [];
  }

  /**
   Every run: the accepted commands, with their bytes and callbacks, are exactly those that the program asked for
   before it asked for a disconnect or a free; and while the context lasts it is closing exactly if one was asked for.
   */
  lemma CommandTheorem(user: User, inputs: seq<Input>)
    ensures var t, calls := Run(user, START, inputs), AllCalls(user, START, inputs);
            && t.commands == Texts(Asked(calls)) && t.accepted == Callbacks(Asked(calls), 0)
            && (!Over(t) ==> (t.disconnecting <==> Disconnect in calls) && Free !in calls)
  {
    hide Run, AllCalls, Asked, Texts, Callbacks;
    StartReady();
    RunAccepts(user, START, inputs);
    var t, calls := Run(user, START, inputs), AllCalls(user, START, inputs);
    assert [] + Texts(Asked(calls)) == Texts(Asked(calls)) && [] + Callbacks(Asked(calls), 0) == Callbacks(Asked(calls), 0);
    RunReady(user, START, inputs);
  }

  lemma {:induction false} RunReady(user: User, s: Ctx, inputs: seq<Input>)
    requires Ready(s) && s.inbox == []
    ensures var t := Run(user, s, inputs); !Over(t) ==> Ready(t) && t.inbox == [] && !t.freeing
    decreases |inputs|
  {
    hide Handle, Over, Consistent;
    if inputs != [] && !Over(s) && !Over(Handle(user, s, inputs[0])) {
      ReadyAfter(user, s, inputs[0]);
      RunReady(user, Handle(user, s, inputs[0]), inputs[1..]);
    }
  }

  /** In every run, the next input ends the context exactly if it should, and else its socket is as the events say. */
  lemma EndTheorem(user: User, inputs: seq<Input>, input: Input)
    ensures var s := Run(user, START, inputs);
            var t := Handle(user, s, input);
            !Over(s) ==> EndsAsSaid(s, input, t, CallsIn(user, NewEvents(s, t))) && (Over(t) || Remembers(s, input, t))
  {
    hide Remembers, Run, Handle, CallsBy, CallsIn, EndsAsSaid, Live;
    var s := Run(user, START, inputs);
    StartReady();
    RunReady(user, START, inputs);
    if !Over(s) {
      var made := InputAnswered(user, s, input);
      CallsKnown(user, s, input, made);
      InputRemembered(user, s, input);
    }
  }
}
