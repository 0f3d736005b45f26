/**
 What `get` and `release` do to a pool, whatever the other threads do in between: the effects that a caller sees,
 told by the number of steps that the thread itself has made.
 */
module PoolOperations {
  import opened ConnectionPool

  /** What thread `t` meets in its own steps of a schedule. */
  function Own(schedule: seq<(nat, Choice)>, t: nat): (own: seq<bool>)
    ensures |own| <= |schedule|
  {
    if schedule == [] then []
    else (if schedule[0].0 == t then [schedule[0].1 == Outcome(true)] else []) + Own(schedule[1..], t)
  }

  /** The connection is open, and pooled or not as said. */
  predicate IsOpen(g: Shared, c: Conn, pooled: bool) {
    c in g.open && g.open[c] == pooled
  }

  /** One new connection, opened since the count of connections was `first`, and nothing else. */
  ghost predicate GotNew(g: Shared, th: Thread, held: set<Conn>, first: Conn, pooled: bool) {
    exists d :: d >= first && th == Thread(Idle, held + {d}) && IsOpen(g, d, pooled)
  }

  // ---------- What other threads leave alone ----------

  /** A step of another thread: the thread is as it was, its connections stay open, and in its section so does the vector. */
  lemma OtherThread(s: Pool, t: nat, u: nat, choice: Choice, n: nat)
    requires Inv(s, n) && t < |s.threads| && u != t
    ensures var s' := Step(s, u, choice);
            && |s'.threads| == |s.threads| && s'.threads[t] == s.threads[t] && s'.shared.next >= s.shared.next
            && (forall c | c in s.threads[t].held ::
                  c in s.shared.open && c in s'.shared.open && s'.shared.open[c] == s.shared.open[c])
            && (forall c | c < s.shared.next && c !in s.shared.open :: c !in s'.shared.open)
            && (InSection(s.threads[t].pc) ==>
                  s'.shared.slots == s.shared.slots && s'.shared.size == s.shared.size && s'.shared.locked)
  {
    hide Placed, Stored, Conserved, InSection;
    if u < |s.threads| {
      var g, th := s.shared, s.threads[u];
      assert Local(g, th);
      ActEffect(g, th, choice);
      VectorInSection(g, th, choice);
      LockEffect(g, th, choice);
      hide Act, Local;
      forall c | c in s.threads[t].held
        ensures c in g.open && c !in th.held && c != g.next
      {
      }
    }
  }

  // ---------- Getting from a pool that has a connection ----------

  /** Where thread `t` is after its steps `own` since it looked at a pool of `size` connections with `c` on top. */
  ghost predicate Taking(s: Pool, t: nat, slots: map<nat, Conn>, size: nat, held: set<Conn>, first: Conn, own: seq<bool>)
    requires size > 0 && size - 1 in slots
  {
    var c := slots[size - 1];
    && t < |s.threads| && s.shared.next >= first > c && c !in held
    && var g, th := s.shared, s.threads[t];
       match |own|
       case 0 => th == Thread(GetCheck, held) && g.slots == slots && g.size == size
       case 1 => th == Thread(GetBack, held) && g.slots == slots && g.size == size
       case 2 => th == Thread(GetPop(c), held) && g.slots == slots && g.size == size
       case 3 => th == Thread(GetUnlock(c), held + {c}) && g.slots == slots && g.size == size - 1 && IsOpen(g, c, true)
       case 4 => th == Thread(GetPing(c), held + {c}) && IsOpen(g, c, true)
       case 5 =>
         if own[4] then th == Thread(Idle, held + {c}) && IsOpen(g, c, true)
         else th == Thread(Reconnect, held) && c !in g.open
       case 6 => !own[4] ==> c !in g.open && if own[5] then GotNew(g, th, held, first, true) else th == Thread(Idle, held)
       case _ => true
  }

  lemma TakingOwn(s: Pool, t: nat, choice: Choice, n: nat,
                  slots: map<nat, Conn>, size: nat, held: set<Conn>, first: Conn, own: seq<bool>)
    requires Inv(s, n) && size > 0 && size - 1 in slots && Taking(s, t, slots, size, held, first, own)
    ensures Taking(Step(s, t, choice), t, slots, size, held, first, own + [choice == Outcome(true)])
  {
    hide Exclusive, Placed, Conserved, GotNew;
    var g, th, c := s.shared, s.threads[t], slots[size - 1];
    var s' := Step(s, t, choice);
    assert Local(g, th);
    if |own| == 5 && !own[4] {
      GotNewBy(g, s'.threads[t], held, first, true, s'.shared);
    } else if |own| == 2 {
      assert g.slots[g.size - 1] == c && IsOpen(g, c, true);
    } else if |own| == 4 {
      assert held + {c} - {c} == held;
    }
  }

  lemma GotNewBy(g: Shared, th': Thread, held: set<Conn>, first: Conn, pooled: bool, g': Shared)
    requires g.next >= first
    ensures th' == Thread(Idle, held + {g.next}) && IsOpen(g', g.next, pooled) ==> GotNew(g', th', held, first, pooled)
  {
  }

  lemma TakingOther(s: Pool, t: nat, u: nat, choice: Choice, n: nat,
                    slots: map<nat, Conn>, size: nat, held: set<Conn>, first: Conn, own: seq<bool>)
    requires Inv(s, n) && size > 0 && size - 1 in slots && Taking(s, t, slots, size, held, first, own) && u != t
    ensures Taking(Step(s, u, choice), t, slots, size, held, first, own)
  {
    hide Inv, GotNew;
    OtherThread(s, t, u, choice, n);
    var s' := Step(s, u, choice);
    hide Step;
    if |own| == 6 && !own[4] && own[5] {
      StillNew(s.shared, s'.shared, s.threads[t], held, first, true);
    }
  }

  lemma StillNew(g: Shared, g': Shared, th: Thread, held: set<Conn>, first: Conn, pooled: bool)
    requires GotNew(g, th, held, first, pooled)
    requires forall c | c in th.held :: c in g'.open && c in g.open && g'.open[c] == g.open[c]
    ensures GotNew(g', th, held, first, pooled)
  {
    var d :| d >= first && th == Thread(Idle, held + {d}) && IsOpen(g, d, pooled);
    assert d in th.held && IsOpen(g', d, pooled);
  }

  lemma {:induction false} TakingRun(s: Pool, t: nat, schedule: seq<(nat, Choice)>, n: nat,
                                     slots: map<nat, Conn>, size: nat, held: set<Conn>, first: Conn, own: seq<bool>)
    requires Inv(s, n) && size > 0 && size - 1 in slots && Taking(s, t, slots, size, held, first, own)
    ensures Taking(Run(s, schedule), t, slots, size, held, first, own + Own(schedule, t))
    decreases |schedule|
  {
    hide Step, Inv, Taking;
    if schedule == [] {
      assert own + [] == own;
    } else {
      var (u, choice) := schedule[0];
      var s' := Step(s, u, choice);
      InvStep(s, u, choice, n);
      if u == t {
        TakingOwn(s, t, choice, n, slots, size, held, first, own);
        var more := own + [choice == Outcome(true)];
        TakingRun(s', t, schedule[1..], n, slots, size, held, first, more);
        assert more + Own(schedule[1..], t) == own + Own(schedule, t);
      } else {
        TakingOther(s, t, u, choice, n, slots, size, held, first, own);
        TakingRun(s', t, schedule[1..], n, slots, size, held, first, own);
        assert own + Own(schedule[1..], t) == own + Own(schedule, t);
      }
    }
  }

  /**
   A thread that has the lock looks at a pool with a connection in it. However the other threads go on, it takes
   the connection on top, and when it gives the lock back the pool is that one connection shorter. If the connection
   answers, the thread has it. If not, it is closed, and the thread has a new pooled connection instead, or none
   when that cannot be opened.
   */
  lemma GetTakes(s: Pool, t: nat, schedule: seq<(nat, Choice)>, n: nat)
    requires Inv(s, n) && t < |s.threads| && s.threads[t].pc == GetCheck && s.shared.size > 0
    ensures s.shared.size - 1 in s.shared.slots
    ensures var s', own := Run(s, schedule), Own(schedule, t);
            var held, size, c := s.threads[t].held, s.shared.size, s.shared.slots[s.shared.size - 1];
            && c !in held && t < |s'.threads| && IsOpen(s.shared, c, true)
            && (|own| == 3 ==> s'.shared.size == size - 1 && s'.shared.slots == s.shared.slots && s'.threads[t].held == held + {c})
            && (|own| == 5 && own[4] ==> s'.threads[t] == Thread(Idle, held + {c}) && IsOpen(s'.shared, c, true))
            && (|own| == 6 && !own[4] ==>
                  c !in s'.shared.open
                  && if own[5] then GotNew(s'.shared, s'.threads[t], held, s.shared.next, true) else s'.threads[t] == Thread(Idle, held))
  {
    hide Run, GotNew, Exclusive, Placed, Conserved, Informed;
    var g, c := s.shared, s.shared.slots[s.shared.size - 1];
    assert c in g.open && g.open[c] && c < g.next && c !in s.threads[t].held;
    TakingRun(s, t, schedule, n, g.slots, g.size, s.threads[t].held, g.next, []);
    assert [] + Own(schedule, t) == Own(schedule, t);
  }

  // ---------- Getting from an empty pool ----------

  ghost predicate Overflowing(s: Pool, t: nat, held: set<Conn>, first: Conn, own: seq<bool>) {
    && t < |s.threads| && s.shared.next >= first
    && var g, th := s.shared, s.threads[t];
       match |own|
       case 0 => th == Thread(GetCheck, held) && g.size == 0
       case 1 => th == Thread(GetEmptyUnlock, held) && g.size == 0
       case 2 => th == Thread(ConnectionPool.Overflow, held)
       case 3 => if own[2] then GotNew(g, th, held, first, false) else th == Thread(Idle, held)
       case _ => true
  }

  lemma OverflowingOwn(s: Pool, t: nat, choice: Choice, held: set<Conn>, first: Conn, own: seq<bool>)
    requires Overflowing(s, t, held, first, own)
    ensures Overflowing(Step(s, t, choice), t, held, first, own + [choice == Outcome(true)])
  {
    hide GotNew;
    var s' := Step(s, t, choice);
    if |own| == 2 {
      GotNewBy(s.shared, s'.threads[t], held, first, false, s'.shared);
    }
  }

  lemma OverflowingOther(s: Pool, t: nat, u: nat, choice: Choice, n: nat, held: set<Conn>, first: Conn, own: seq<bool>)
    requires Inv(s, n) && Overflowing(s, t, held, first, own) && u != t
    ensures Overflowing(Step(s, u, choice), t, held, first, own)
  {
    hide Inv, GotNew;
    OtherThread(s, t, u, choice, n);
    var s' := Step(s, u, choice);
    hide Step;
    if |own| == 3 && own[2] {
      StillNew(s.shared, s'.shared, s.threads[t], held, first, false);
    }
  }

  lemma {:induction false} OverflowingRun(s: Pool, t: nat, schedule: seq<(nat, Choice)>, n: nat,
                                          held: set<Conn>, first: Conn, own: seq<bool>)
    requires Inv(s, n) && Overflowing(s, t, held, first, own)
    ensures Overflowing(Run(s, schedule), t, held, first, own + Own(schedule, t))
    decreases |schedule|
  {
    hide Step, Inv, Overflowing;
    if schedule == [] {
      assert own + [] == own;
    } else {
      var (u, choice) := schedule[0];
      var s' := Step(s, u, choice);
      InvStep(s, u, choice, n);
      if u == t {
        OverflowingOwn(s, t, choice, held, first, own);
        var more := own + [choice == Outcome(true)];
        OverflowingRun(s', t, schedule[1..], n, held, first, more);
        assert more + Own(schedule[1..], t) == own + Own(schedule, t);
      } else {
        OverflowingOther(s, t, u, choice, n, held, first, own);
        OverflowingRun(s', t, schedule[1..], n, held, first, own);
        assert own + Own(schedule[1..], t) == own + Own(schedule, t);
      }
    }
  }

  /**
   A thread that has the lock looks at an empty pool: however the others go on, it ends with one new connection
   that is not pooled, or with none when that cannot be opened.
   */
  lemma GetOverflows(s: Pool, t: nat, schedule: seq<(nat, Choice)>, n: nat)
    requires Inv(s, n) && t < |s.threads| && s.threads[t].pc == GetCheck && s.shared.size == 0
    ensures var s', own := Run(s, schedule), Own(schedule, t);
            |own| == 3 ==>
              && t < |s'.threads|
              && if own[2] then GotNew(s'.shared, s'.threads[t], s.threads[t].held, s.shared.next, false)
                 else s'.threads[t] == Thread(Idle, s.threads[t].held)
  {
    hide Run, GotNew, Inv;
    OverflowingRun(s, t, schedule, n, s.threads[t].held, s.shared.next, []);
    assert [] + Own(schedule, t) == Own(schedule, t);
  }

  // ---------- Releasing ----------

  ghost predicate Releasing(s: Pool, t: nat, c: Conn, slots: map<nat, Conn>, size: nat, held: set<Conn>, own: seq<bool>) {
    && t < |s.threads|
    && var g, th := s.shared, s.threads[t];
       match |own|
       case 0 => th == Thread(RelWrite(c), held) && c in held && g.slots == slots && g.size == size
       case 1 => th == Thread(RelGrow(c), held) && c in held && g.slots == slots[size := c] && g.size == size
       case 2 => th == Thread(RelUnlock, held - {c}) && g.slots == slots[size := c] && g.size == size + 1
       case 3 => th == Thread(Idle, held - {c})
       case _ => true
  }

  lemma ReleasingOwn(s: Pool, t: nat, choice: Choice, c: Conn, slots: map<nat, Conn>, size: nat, held: set<Conn>, own: seq<bool>)
    requires Releasing(s, t, c, slots, size, held, own)
    ensures Releasing(Step(s, t, choice), t, c, slots, size, held, own + [choice == Outcome(true)])
  {
  }

  lemma ReleasingOther(s: Pool, t: nat, u: nat, choice: Choice, n: nat,
                       c: Conn, slots: map<nat, Conn>, size: nat, held: set<Conn>, own: seq<bool>)
    requires Inv(s, n) && Releasing(s, t, c, slots, size, held, own) && u != t
    ensures Releasing(Step(s, u, choice), t, c, slots, size, held, own)
  {
    hide Inv;
    OtherThread(s, t, u, choice, n);
    hide Step;
  }

  lemma {:induction false} ReleasingRun(s: Pool, t: nat, schedule: seq<(nat, Choice)>, n: nat,
                                        c: Conn, slots: map<nat, Conn>, size: nat, held: set<Conn>, own: seq<bool>)
    requires Inv(s, n) && Releasing(s, t, c, slots, size, held, own)
    ensures Releasing(Run(s, schedule), t, c, slots, size, held, own + Own(schedule, t))
    decreases |schedule|
  {
    hide Step, Inv, Releasing;
    if schedule == [] {
      assert own + [] == own;
    } else {
      var (u, choice) := schedule[0];
      var s' := Step(s, u, choice);
      InvStep(s, u, choice, n);
      if u == t {
        ReleasingOwn(s, t, choice, c, slots, size, held, own);
        var more := own + [choice == Outcome(true)];
        ReleasingRun(s', t, schedule[1..], n, c, slots, size, held, more);
        assert more + Own(schedule[1..], t) == own + Own(schedule, t);
      } else {
        ReleasingOther(s, t, u, choice, n, c, slots, size, held, own);
        ReleasingRun(s', t, schedule[1..], n, c, slots, size, held, own);
        assert own + Own(schedule[1..], t) == own + Own(schedule, t);
      }
    }
  }

  /**
   A thread that has got the lock to release a pooled connection: when it gives the lock back the connection is on
   top of the pool, which is one longer and else unchanged, and the thread no longer has it.
   */
  lemma ReleaseReturns(s: Pool, t: nat, c: Conn, schedule: seq<(nat, Choice)>, n: nat)
    requires Inv(s, n) && t < |s.threads| && s.threads[t].pc == RelWrite(c)
    ensures IsOpen(s.shared, c, true) && c in s.threads[t].held
    ensures var s', own, size := Run(s, schedule), Own(schedule, t), s.shared.size;
            && t < |s'.threads|
            && (|own| == 2 ==>
                  && s'.shared.size == size + 1 && s'.shared.slots == s.shared.slots[size := c]
                  && IsOpen(s'.shared, c, true) && s'.threads[t].held == s.threads[t].held - {c})
            && (|own| == 3 ==> s'.threads[t] == Thread(Idle, s.threads[t].held - {c}))
  {
    hide Run, Exclusive, Placed, Owned, Conserved;
    assert Local(s.shared, s.threads[t]);
    ReleasingRun(s, t, schedule, n, c, s.shared.slots, s.shared.size, s.threads[t].held, []);
    assert [] + Own(schedule, t) == Own(schedule, t);
    InvRun(s, schedule, n);
    var s' := Run(s, schedule);
    if |Own(schedule, t)| == 2 {
      assert s'.shared.slots[s'.shared.size - 1] == c;
    }
  }

  /** A release of a connection that is not pooled closes it and leaves the pool alone. */
  lemma ReleaseCloses(s: Pool, t: nat, c: Conn, choice: Choice, n: nat)
    requires Inv(s, n) && t < |s.threads| && s.threads[t].pc == RelCheck(c)
    ensures c in s.shared.open
    ensures var s' := Step(s, t, choice);
            if s.shared.open[c] then s' == s.(threads := s.threads[t := s.threads[t].(pc := RelLock(c))])
            else s' == Pool(s.shared.(open := s.shared.open - {c}), s.threads[t := Thread(Idle, s.threads[t].held - {c})])
  {
    hide Exclusive, Placed, Stored, Conserved;
    assert Local(s.shared, s.threads[t]);
  }

  // ---------- How an operation begins ----------

  /** An operation is started by a caller, for a release with a connection that it has; nothing else happens yet. */
  lemma Begins(s: Pool, t: nat, choice: Choice)
    requires t < |s.threads| && s.threads[t].pc == Idle
    ensures var th, s' := s.threads[t], Step(s, t, choice);
            match choice
            case Get => s' == s.(threads := s.threads[t := th.(pc := GetLock)])
            case Release(c) =>
              if c in th.held then s' == s.(threads := s.threads[t := th.(pc := RelCheck(c))])
              else s'.shared == s.shared && s'.threads == s.threads
            case Outcome(_) => s'.shared == s.shared && s'.threads == s.threads
  {
  }

  /** A thread that wants the lock has it after its first step at which it is free, and only waits before. */
  lemma WaitsForLock(s: Pool, t: nat, choice: Choice)
    requires t < |s.threads| && (s.threads[t].pc.GetLock? || s.threads[t].pc.RelLock?)
    ensures var th, s' := s.threads[t], Step(s, t, choice);
            if s.shared.locked then s'.shared == s.shared && s'.threads == s.threads
            else
              && s'.shared == s.shared.(locked := true)
              && s'.threads == s.threads[t := th.(pc := if th.pc.GetLock? then GetCheck else RelWrite(th.pc.conn))]
  {
  }

  // ---------- How many connections overflow ----------

  /** The thread looks at the pool, and the pool is empty. */
  predicate SeesEmpty(s: Pool, t: nat) {
    t < |s.threads| && s.threads[t].pc == GetCheck && s.shared.size == 0
  }

  function EmptyChecks(s: Pool, schedule: seq<(nat, Choice)>): nat
    decreases |schedule|
  {
    if schedule == [] then 0
    else
      var (t, choice) := schedule[0];
      (if SeesEmpty(s, t) then 1 else 0) + EmptyChecks(Step(s, t, choice), schedule[1..])
  }

  /** In a step a new connection is opened that is not pooled. */
  predicate OpensUnpooled(s: Pool, t: nat, choice: Choice) {
    s.shared.next !in s.shared.open && IsOpen(Step(s, t, choice).shared, s.shared.next, false)
  }

  function Overflows(s: Pool, schedule: seq<(nat, Choice)>): nat
    decreases |schedule|
  {
    if schedule == [] then 0
    else
      var (t, choice) := schedule[0];
      (if OpensUnpooled(s, t, choice) then 1 else 0) + Overflows(Step(s, t, choice), schedule[1..])
  }

  predicate GoesWithout(pc: Pc) {
    pc.GetEmptyUnlock? || pc.Overflow?
  }

  /** How many threads have seen an empty pool and not yet opened a connection of their own. */
  function Pending(threads: seq<Thread>): nat {
    if threads == [] then 0 else (if GoesWithout(threads[0].pc) then 1 else 0) + Pending(threads[1..])
  }

  lemma {:induction false} PendingUpdate(threads: seq<Thread>, t: nat, th: Thread)
    requires t < |threads|
    ensures Pending(threads[t := th]) + (if GoesWithout(threads[t].pc) then 1 else 0)
         == Pending(threads) + (if GoesWithout(th.pc) then 1 else 0)
  {
    if t == 0 {
      assert threads[0 := th][1..] == threads[1..];
    } else {
      PendingUpdate(threads[1..], t - 1, th);
      assert threads[t := th][1..] == threads[1..][t - 1 := th];
    }
  }

  lemma OverflowStep(s: Pool, t: nat, choice: Choice)
    ensures (if OpensUnpooled(s, t, choice) then 1 else 0) + Pending(Step(s, t, choice).threads)
         <= Pending(s.threads) + (if SeesEmpty(s, t) then 1 else 0)
  {
    hide Pending;
    if t < |s.threads| {
      PendingUpdate(s.threads, t, Step(s, t, choice).threads[t]);
    }
  }

  /** In every run, a connection that is not pooled is opened at most once for every look at an empty pool. */
  lemma {:induction false} OverflowCounts(s: Pool, schedule: seq<(nat, Choice)>)
    ensures Overflows(s, schedule) + Pending(Run(s, schedule).threads) <= Pending(s.threads) + EmptyChecks(s, schedule)
    decreases |schedule|
  {
    hide Step, OpensUnpooled, SeesEmpty, Pending;
    if schedule != [] {
      var (t, choice) := schedule[0];
      OverflowStep(s, t, choice);
      OverflowCounts(Step(s, t, choice), schedule[1..]);
    }
  }

  lemma {:induction false} FreshPending(workers: nat)
    ensures Pending(Fresh(workers)) == 0
  {
    if workers > 0 {
      FreshPending(workers - 1);
      assert Fresh(workers)[1..] == Fresh(workers - 1);
    }
  }

  lemma OverflowBound(g: Shared, workers: nat, schedule: seq<(nat, Choice)>)
    ensures var s := Pool(g, Fresh(workers)); Overflows(s, schedule) <= EmptyChecks(s, schedule)
  {
    hide Overflows, EmptyChecks, Run;
    FreshPending(workers);
    OverflowCounts(Pool(g, Fresh(workers)), schedule);
  }
}
