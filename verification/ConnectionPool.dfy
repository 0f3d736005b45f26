/**
 The connection pools of `dbconn_pool.cpp` and `redis_pool.cpp`, which share one protocol, under the spinlock of
 `spinlock.hpp`: threads that take and give back connections, interleaved step by step in any way.
 */
module ConnectionPool {
  type Conn = nat

  /** Where a thread is: outside the pool, in `get_dbconn`, or in `release_dbconn`. */
  datatype Pc =
    | Idle
    // get
    | GetLock                // exchanging the lock in a loop
    | GetCheck               // pool.empty()
    | GetEmptyUnlock
    | Overflow               // connect(false)
    | GetBack                // pool.back()
    | GetPop(conn: Conn)     // pool.pop_back()
    | GetUnlock(conn: Conn)
    | GetPing(conn: Conn)    // released too long ago, and does not answer?
    | Reconnect              // deleted; connect()
    // release
    | RelCheck(conn: Conn)   // is_pooled()
    | RelLock(conn: Conn)
    | RelWrite(conn: Conn)   // push_back, the element
    | RelGrow(conn: Conn)    // push_back, the size
    | RelUnlock

  datatype Thread = Thread(pc: Pc, held: set<Conn>)

  /**
   What the threads share: the lock, the vector with its slots and its size, and for every open connection whether
   it is pooled. `lost` counts the reconnects of pooled connections that threw.
   */
  datatype Shared = Shared(locked: bool, slots: map<nat, Conn>, size: nat, open: map<Conn, bool>, next: Conn, lost: nat)

  datatype Pool = Pool(shared: Shared, threads: seq<Thread>)

  /** What is not up to the protocol: what the caller wants, and whether a ping or a connect succeeds. */
  datatype Choice = Get | Release(conn: Conn) | Outcome(ok: bool)

  // ---------- One step of one thread ----------

  /** `spinlock::lock`: one exchange; the thread goes on if the old state was unlocked. */
  function Exchange(g: Shared, th: Thread, pc: Pc): (Shared, Thread) {
    if g.locked then (g, th) else (g.(locked := true), th.(pc := pc))
  }

  /** `spinlock::unlock` */
  function Unlock(g: Shared, th: Thread, pc: Pc): (Shared, Thread) {
    (g.(locked := false), th.(pc := pc))
  }

  /** `connect`: a new connection in the thread's hands, unless it throws. */
  function Connect(g: Shared, th: Thread, pooled: bool): (Shared, Thread) {
    (g.(open := g.open[g.next := pooled], next := g.next + 1), Thread(Idle, th.held + {g.next}))
  }

  /** `delete` */
  function Delete(g: Shared, th: Thread, pc: Pc, c: Conn): (Shared, Thread) {
    (g.(open := g.open - {c}), Thread(pc, th.held - {c}))
  }

  /** A thread outside the pool may start an operation; it releases only what it holds. */
  function ActIdle(g: Shared, th: Thread, choice: Choice): (Shared, Thread) {
    match choice
    case Get => (g, th.(pc := GetLock))
    case Release(c) => if c in th.held then (g, th.(pc := RelCheck(c))) else (g, th)
    case Outcome(_) => (g, th)
  }

  /** `get_dbconn`. Where a slot is read that was never written the thread is stuck; the invariant excludes that. */
  function ActGet(g: Shared, th: Thread, ok: bool): (Shared, Thread) {
    match th.pc
    case GetLock => Exchange(g, th, GetCheck)
    case GetCheck => (g, th.(pc := if g.size == 0 then GetEmptyUnlock else GetBack))
    case GetEmptyUnlock => Unlock(g, th, Overflow)
    case Overflow => if ok then Connect(g, th, false) else (g, th.(pc := Idle))
    case GetBack => if g.size > 0 && g.size - 1 in g.slots then (g, th.(pc := GetPop(g.slots[g.size - 1]))) else (g, th)
    case GetPop(c) => if g.size > 0 then (g.(size := g.size - 1), Thread(GetUnlock(c), th.held + {c})) else (g, th)
    case GetUnlock(c) => Unlock(g, th, GetPing(c))
    case GetPing(c) => if ok then (g, th.(pc := Idle)) else Delete(g, th, Reconnect, c)
    case Reconnect => if ok then Connect(g, th, true) else (g.(lost := g.lost + 1), th.(pc := Idle))
    case _ => (g, th)
  }

  /** `release_dbconn` */
  function ActRelease(g: Shared, th: Thread): (Shared, Thread) {
    match th.pc
    case RelCheck(c) => if c in g.open && g.open[c] then (g, th.(pc := RelLock(c))) else Delete(g, th, Idle, c)
    case RelLock(c) => Exchange(g, th, RelWrite(c))
    case RelWrite(c) => (g.(slots := g.slots[g.size := c]), th.(pc := RelGrow(c)))
    case RelGrow(c) => (g.(size := g.size + 1), Thread(RelUnlock, th.held - {c}))
    case RelUnlock => Unlock(g, th, Idle)
    case _ => (g, th)
  }

  predicate Getting(pc: Pc) {
    || pc.GetLock? || pc.GetCheck? || pc.GetEmptyUnlock? || pc.Overflow? || pc.GetBack? || pc.GetPop? || pc.GetUnlock?
    || pc.GetPing? || pc.Reconnect?
  }

  function Act(g: Shared, th: Thread, choice: Choice): (Shared, Thread) {
    if th.pc.Idle? then ActIdle(g, th, choice)
    else if Getting(th.pc) then ActGet(g, th, choice == Outcome(true))
    else ActRelease(g, th)
  }

  function Step(s: Pool, t: nat, choice: Choice): Pool {
    if t >= |s.threads| then s
    else
      var (g, th) := Act(s.shared, s.threads[t], choice);
      Pool(g, s.threads[t := th])
  }

  /** Any interleaving: which thread steps, and what it meets. */
  function Run(s: Pool, schedule: seq<(nat, Choice)>): Pool
    decreases |schedule|
  {
    if schedule == [] then s else Run(Step(s, schedule[0].0, schedule[0].1), schedule[1..])
  }

  // ---------- The invariant ----------

  /** Between `lock` and `unlock`. */
  predicate InSection(pc: Pc) {
    || pc.GetCheck? || pc.GetEmptyUnlock? || pc.GetBack? || pc.GetPop? || pc.GetUnlock?
    || pc.RelWrite? || pc.RelGrow? || pc.RelUnlock?
  }

  /** At most one thread is in the section, and the lock is taken exactly when one is. */
  ghost predicate Exclusive(s: Pool) {
    && (forall t | 0 <= t < |s.threads| && InSection(s.threads[t].pc) :: s.shared.locked)
    && (forall t, u | 0 <= t < |s.threads| && 0 <= u < |s.threads| && t != u ::
          !(InSection(s.threads[t].pc) && InSection(s.threads[u].pc)))
    && (s.shared.locked ==> exists t :: 0 <= t < |s.threads| && InSection(s.threads[t].pc))
  }

  ghost predicate InPool(g: Shared, c: Conn) {
    exists i :: 0 <= i < g.size && i in g.slots && g.slots[i] == c
  }

  ghost predicate Held(threads: seq<Thread>, c: Conn) {
    exists t :: 0 <= t < |threads| && c in threads[t].held
  }

  /** The pool holds open pooled connections, each once, and none that a thread holds. */
  ghost predicate Stored(g: Shared, threads: seq<Thread>) {
    && (forall i | 0 <= i < g.size :: i in g.slots && g.slots[i] in g.open && g.open[g.slots[i]])
    && (forall i, j | 0 <= i < j < g.size :: g.slots[i] != g.slots[j])
    && (forall i, t | 0 <= i < g.size && 0 <= t < |threads| :: g.slots[i] !in threads[t].held)
  }

  /** No two threads hold the same connection, and a held connection is open. */
  ghost predicate Owned(g: Shared, threads: seq<Thread>) {
    && (forall t, c | 0 <= t < |threads| && c in threads[t].held :: c in g.open)
    && (forall t, u, c | 0 <= t < |threads| && 0 <= u < |threads| && t != u && c in threads[t].held :: c !in threads[u].held)
    && (forall c | c in g.open :: c < g.next)
  }

  /** No open connection is forgotten. */
  ghost predicate Placed(g: Shared, threads: seq<Thread>) {
    forall c | c in g.open :: InPool(g, c) || Held(threads, c)
  }

  ghost predicate Storage(g: Shared, threads: seq<Thread>) {
    Stored(g, threads) && Owned(g, threads) && Placed(g, threads)
  }

  predicate Pooled(g: Shared, th: Thread, c: Conn) {
    c in th.held && c in g.open && g.open[c]
  }

  /** What a thread knows at each place. */
  predicate Local(g: Shared, th: Thread) {
    match th.pc
    case GetBack => g.size > 0
    case GetPop(c) => g.size > 0 && g.size - 1 in g.slots && g.slots[g.size - 1] == c
    case GetUnlock(c) => Pooled(g, th, c)
    case GetPing(c) => Pooled(g, th, c)
    case RelCheck(c) => c in th.held
    case RelLock(c) => Pooled(g, th, c)
    case RelWrite(c) => Pooled(g, th, c)
    case RelGrow(c) => Pooled(g, th, c) && g.size in g.slots && g.slots[g.size] == c
    case _ => true
  }

  ghost predicate Informed(s: Pool) {
    forall t | 0 <= t < |s.threads| :: Local(s.shared, s.threads[t])
  }

  /** The open pooled connections. */
  ghost function PooledOpen(open: map<Conn, bool>): set<Conn> {
    set c | c in open && open[c]
  }

  /** How many threads have deleted a pooled connection and not yet opened its successor. */
  function Reconnecting(threads: seq<Thread>): nat {
    if threads == [] then 0 else (if threads[0].pc.Reconnect? then 1 else 0) + Reconnecting(threads[1..])
  }

  ghost predicate Conserved(s: Pool, poolSize: nat) {
    |PooledOpen(s.shared.open)| + Reconnecting(s.threads) + s.shared.lost == poolSize
  }

  ghost predicate Inv(s: Pool, poolSize: nat) {
    Exclusive(s) && Storage(s.shared, s.threads) && Informed(s) && Conserved(s, poolSize)
  }

  // ---------- The lock ----------

  /** A step enters the section when the lock was free, or leaves it and frees the lock, or changes neither. */
  lemma LockEffect(g: Shared, th: Thread, choice: Choice)
    ensures var (g', th') := Act(g, th, choice);
            var before, after := InSection(th.pc), InSection(th'.pc);
            || (g'.locked == g.locked && before == after)
            || (!g.locked && g'.locked && !before && after)
            || (before && !after && !g'.locked)
  {
  }

  lemma ExclusiveStep(s: Pool, t: nat, choice: Choice)
    requires Exclusive(s)
    ensures Exclusive(Step(s, t, choice))
  {
    hide Act, InSection;
    if t < |s.threads| {
      LockEffect(s.shared, s.threads[t], choice);
      var s' := Step(s, t, choice);
      if s'.shared.locked && s.shared.locked {
        var u :| 0 <= u < |s.threads| && InSection(s.threads[u].pc);
        assert InSection(s'.threads[u].pc);
      } else if s'.shared.locked {
        assert InSection(s'.threads[t].pc);
      }
    }
  }

  // ---------- What a step does to the connections ----------

  /** Every step is one of these; `After` tells the new shared state and the connections the thread then holds. */
  datatype Effect = Same | Pop | Write(conn: Conn) | Grow(conn: Conn) | Close(conn: Conn) | Open(pooled: bool)

  function EffectOf(g: Shared, th: Thread, choice: Choice): Effect {
    var ok := choice == Outcome(true);
    match th.pc
    case GetPop(_) => Pop
    case RelWrite(c) => Write(c)
    case RelGrow(c) => Grow(c)
    case GetPing(c) => if ok then Same else Close(c)
    case RelCheck(c) => if c in g.open && g.open[c] then Same else Close(c)
    case Overflow => if ok then Open(false) else Same
    case Reconnect => if ok then Open(true) else Same
    case _ => Same
  }

  predicate Possible(g: Shared, th: Thread, e: Effect) {
    match e
    case Pop => g.size > 0 && g.size - 1 in g.slots
    case Write(c) => c in th.held
    case Grow(c) => Pooled(g, th, c) && g.size in g.slots && g.slots[g.size] == c
    case Close(c) => c in th.held
    case _ => true
  }

  /** The shared state after an effect, but for the lock and the count of losses. */
  function After(g: Shared, e: Effect): Shared
    requires e.Pop? ==> g.size > 0
  {
    match e
    case Same => g
    case Pop => g.(size := g.size - 1)
    case Write(c) => g.(slots := g.slots[g.size := c])
    case Grow(_) => g.(size := g.size + 1)
    case Close(c) => g.(open := g.open - {c})
    case Open(pooled) => g.(open := g.open[g.next := pooled], next := g.next + 1)
  }

  function HeldAfter(g: Shared, held: set<Conn>, e: Effect): set<Conn>
    requires e.Pop? ==> g.size > 0 && g.size - 1 in g.slots
  {
    match e
    case Pop => held + {g.slots[g.size - 1]}
    case Grow(c) => held - {c}
    case Close(c) => held - {c}
    case Open(_) => held + {g.next}
    case _ => held
  }

  lemma ActEffect(g: Shared, th: Thread, choice: Choice)
    requires Local(g, th)
    ensures Possible(g, th, EffectOf(g, th, choice)) && (EffectOf(g, th, choice).Pop? ==> g.size > 0 && g.size - 1 in g.slots)
    ensures var (g', th') := Act(g, th, choice);
            var e := EffectOf(g, th, choice);
            g'.(locked := g.locked, lost := g.lost) == After(g, e) && th'.held == HeldAfter(g, th.held, e)
  {
  }

  /** Where the connections are, as each effect leaves it. */
  lemma PlacedAfter(g: Shared, threads: seq<Thread>, t: nat, th: Thread, e: Effect, c: Conn)
    requires Storage(g, threads) && t < |threads| && Possible(g, threads[t], e)
    requires th.held == HeldAfter(g, threads[t].held, e) && c in After(g, e).open
    ensures InPool(After(g, e), c) || Held(threads[t := th], c)
  {
    hide Stored, Owned;
    var g', threads' := After(g, e), threads[t := th];
    if c in th.held {
      assert c in threads'[t].held;
    } else if e == Grow(c) {
      assert g'.slots[g.size] == c;
    } else if InPool(g, c) {
      var i :| 0 <= i < g.size && i in g.slots && g.slots[i] == c;
      assert g'.slots[i] == c && i < g'.size;
    } else {
      var u :| 0 <= u < |threads| && c in threads[u].held;
      assert c in threads'[u].held;
    }
  }

  lemma OwnedAfter(g: Shared, threads: seq<Thread>, t: nat, th: Thread, e: Effect)
    requires Storage(g, threads) && t < |threads| && Possible(g, threads[t], e)
    requires th.held == HeldAfter(g, threads[t].held, e)
    ensures Owned(After(g, e), threads[t := th])
  {
    hide Placed;
    var g', threads' := After(g, e), threads[t := th];
    forall u, c | 0 <= u < |threads| && c in threads'[u].held
      ensures c in g'.open
    {
      assert u != t ==> c in threads[u].held;
    }
    forall u, v, c | 0 <= u < |threads| && 0 <= v < |threads| && u != v && c in threads'[u].held
      ensures c !in threads'[v].held
    {
      if u == t {
        assert c in threads[t].held || (e.Open? && c == g.next) || (e.Pop? && c == g.slots[g.size - 1]);
        assert c in threads[v].held ==> c in g.open && c < g.next;
      } else {
        assert c in threads[u].held && c in g.open && c < g.next;
      }
    }
  }

  lemma StoredAfter(g: Shared, threads: seq<Thread>, t: nat, th: Thread, e: Effect)
    requires Storage(g, threads) && t < |threads| && Possible(g, threads[t], e)
    requires th.held == HeldAfter(g, threads[t].held, e)
    ensures Stored(After(g, e), threads[t := th])
  {
    hide Placed;
  }

  /** Every step keeps each open connection in one place. */
  lemma StorageStep(s: Pool, t: nat, choice: Choice)
    requires Storage(s.shared, s.threads) && Informed(s)
    ensures var s' := Step(s, t, choice); Storage(s'.shared, s'.threads)
  {
    hide Act, Local, EffectOf, Possible, After, HeldAfter, Stored, Owned, InPool, Held;
    if t < |s.threads| {
      var g, th := s.shared, s.threads[t];
      ActEffect(g, th, choice);
      var (g', th') := Act(g, th, choice);
      var e := EffectOf(g, th, choice);
      forall c | c in After(g, e).open
        ensures InPool(After(g, e), c) || Held(s.threads[t := th'], c)
      {
        PlacedAfter(g, s.threads, t, th', e, c);
      }
      OwnedAfter(g, s.threads, t, th', e);
      StoredAfter(g, s.threads, t, th', e);
      LockApart(After(g, e), g', s.threads[t := th']);
    }
  }

  lemma LockApart(g: Shared, g': Shared, threads: seq<Thread>)
    requires Storage(g, threads) && g'.(locked := g.locked, lost := g.lost) == g
    ensures Storage(g', threads)
  {
    forall c | c in g'.open
      ensures InPool(g', c) || Held(threads, c)
    {
      assert InPool(g, c) ==> InPool(g', c);
    }
  }

  // ---------- What the threads know ----------

  predicate TopPooled(g: Shared) {
    g.size > 0 ==> g.size - 1 in g.slots && g.slots[g.size - 1] in g.open && g.open[g.slots[g.size - 1]]
  }

  lemma OwnStep(g: Shared, th: Thread, choice: Choice)
    requires Local(g, th) && TopPooled(g)
    ensures var (g', th') := Act(g, th, choice); Local(g', th')
  {
  }

  /** A step does not take from another thread what that one knows. */
  lemma OtherStep(g: Shared, th: Thread, choice: Choice, other: Thread)
    requires Local(g, th) && Local(g, other) && !(InSection(th.pc) && InSection(other.pc))
    requires forall c | c in th.held :: c !in other.held
    requires forall c | c in other.held :: c in g.open && c != g.next
    ensures Local(Act(g, th, choice).0, other)
  {
    hide Act;
    ActEffect(g, th, choice);
    VectorInSection(g, th, choice);
    var g', e := Act(g, th, choice).0, EffectOf(g, th, choice);
    assert forall c | c in other.held && g.open[c] :: c in g'.open && g'.open[c] by {
      hide Local, EffectOf, InSection;
    }
    hide EffectOf, Possible, After, HeldAfter;
  }

  /** The vector is touched between `lock` and `unlock` only. */
  lemma VectorInSection(g: Shared, th: Thread, choice: Choice)
    ensures var g' := Act(g, th, choice).0; !InSection(th.pc) ==> g'.slots == g.slots && g'.size == g.size
  {
  }

  lemma InformedStep(s: Pool, t: nat, choice: Choice)
    requires Exclusive(s) && Storage(s.shared, s.threads) && Informed(s)
    ensures Informed(Step(s, t, choice))
  {
    hide Act, Local, Placed;
    if t < |s.threads| {
      var g, th := s.shared, s.threads[t];
      assert TopPooled(g);
      OwnStep(g, th, choice);
      forall u | 0 <= u < |s.threads| && u != t
        ensures Local(Act(g, th, choice).0, s.threads[u])
      {
        OtherStep(g, th, choice, s.threads[u]);
      }
    }
  }

  // ---------- The number of connections ----------

  lemma {:induction false} ReconnectingUpdate(threads: seq<Thread>, t: nat, th: Thread)
    requires t < |threads|
    ensures Reconnecting(threads[t := th]) + (if threads[t].pc.Reconnect? then 1 else 0)
         == Reconnecting(threads) + (if th.pc.Reconnect? then 1 else 0)
  {
    if t == 0 {
      assert threads[0 := th][1..] == threads[1..];
    } else {
      ReconnectingUpdate(threads[1..], t - 1, th);
      assert threads[t := th][1..] == threads[1..][t - 1 := th];
    }
  }

  /** Pooled connections, reconnects under way and losses balance in every step. */
  lemma Balance(g: Shared, th: Thread, choice: Choice)
    requires Local(g, th) && g.next !in g.open
    ensures var (g', th') := Act(g, th, choice);
            |PooledOpen(g'.open)| + (if th'.pc.Reconnect? then 1 else 0) + g'.lost
            == |PooledOpen(g.open)| + (if th.pc.Reconnect? then 1 else 0) + g.lost
  {
    hide Act, Local, EffectOf, Possible, After, HeldAfter, PooledOpen;
    ActEffect(g, th, choice);
    Bookkeeping(g, th, choice);
    var e := EffectOf(g, th, choice);
    PooledAfter(g, e);
  }

  lemma PooledAfter(g: Shared, e: Effect)
    requires g.next !in g.open && (e.Pop? ==> g.size > 0)
    ensures |PooledOpen(After(g, e).open)| == |PooledOpen(g.open)| + match e
                                                                   case Close(c) => if c in g.open && g.open[c] then -1 else 0
                                                                   case Open(pooled) => if pooled then 1 else 0
                                                                   case _ => 0
  {
    hide PooledOpen;
    match e
    case Close(c) => PooledClose(g.open, c);
    case Open(pooled) => PooledMore(g.open, g.next, pooled);
    case _ =>
  }

  lemma PooledClose(open: map<Conn, bool>, c: Conn)
    ensures |PooledOpen(open - {c})| == |PooledOpen(open)| - if c in open && open[c] then 1 else 0
  {
    if c in open && open[c] {
      assert PooledOpen(open) == PooledOpen(open - {c}) + {c};
    } else {
      assert PooledOpen(open - {c}) == PooledOpen(open);
    }
  }

  lemma PooledMore(open: map<Conn, bool>, c: Conn, pooled: bool)
    requires c !in open
    ensures |PooledOpen(open[c := pooled])| == |PooledOpen(open)| + if pooled then 1 else 0
  {
    if pooled {
      assert PooledOpen(open[c := pooled]) == PooledOpen(open) + {c};
    } else {
      assert PooledOpen(open[c := pooled]) == PooledOpen(open);
    }
  }

  lemma Bookkeeping(g: Shared, th: Thread, choice: Choice)
    requires Local(g, th)
    ensures var (g', th') := Act(g, th, choice);
            var e, change := EffectOf(g, th, choice), (if th'.pc.Reconnect? then 1 else 0) - (if th.pc.Reconnect? then 1 else 0);
            && (e.Close? ==> g'.lost == g.lost && change == if e.conn in g.open && g.open[e.conn] then 1 else 0)
            && (e.Open? ==> g'.lost == g.lost && change == if e.pooled then -1 else 0)
            && (!e.Close? && !e.Open? ==> change + g'.lost == g.lost)
  {
  }

  lemma ConservedStep(s: Pool, t: nat, choice: Choice, poolSize: nat)
    requires Storage(s.shared, s.threads) && Informed(s) && Conserved(s, poolSize)
    ensures Conserved(Step(s, t, choice), poolSize)
  {
    hide Act, Local, Stored, Placed, PooledOpen, Reconnecting;
    if t < |s.threads| {
      Balance(s.shared, s.threads[t], choice);
      ReconnectingUpdate(s.threads, t, Act(s.shared, s.threads[t], choice).1);
    }
  }

  /** Every step keeps the invariant. */
  lemma InvStep(s: Pool, t: nat, choice: Choice, poolSize: nat)
    requires Inv(s, poolSize)
    ensures Inv(Step(s, t, choice), poolSize)
  {
    hide Step, Exclusive, Storage, Informed, Conserved;
    ExclusiveStep(s, t, choice);
    StorageStep(s, t, choice);
    InformedStep(s, t, choice);
    ConservedStep(s, t, choice, poolSize);
  }

  lemma {:induction false} InvRun(s: Pool, schedule: seq<(nat, Choice)>, poolSize: nat)
    requires Inv(s, poolSize)
    ensures Inv(Run(s, schedule), poolSize)
    decreases |schedule|
  {
    hide Step, Inv;
    if schedule != [] {
      InvStep(s, schedule[0].0, schedule[0].1, poolSize);
      InvRun(Step(s, schedule[0].0, schedule[0].1), schedule[1..], poolSize);
    }
  }

  // ---------- The start ----------

  /** A pool of `n` open pooled connections, as `fill_pool` leaves it. */
  ghost predicate Filled(g: Shared, n: nat) {
    && !g.locked && g.size == n && g.lost == 0
    && Storage(g, []) && forall c | c in g.open :: g.open[c]
  }

  /** `fill_pool`, given which of the connections answer their first ping. */
  method FillPool(poolSize: nat, answers: seq<bool>) returns (ok: bool, g: Shared)
    requires |answers| >= poolSize
    ensures ok <==> poolSize > 0 && forall i | 0 <= i < poolSize :: answers[i]
    ensures Filled(g, g.size) && g.size <= poolSize && forall i | 0 <= i < g.size :: answers[i]
    ensures ok ==> g.size == poolSize
    ensures !ok && poolSize > 0 ==> g.size < poolSize && !answers[g.size]
  {
    hide Filled;
    g := Shared(false, map[], 0, map[], 0, 0);
    FilledNone(g);
    if poolSize == 0 {
      return false, g;
    }
    for i := 0 to poolSize
      invariant Filled(g, i) && g.size == i && forall j | 0 <= j < i :: answers[j]
    {
      ghost var before := g;
      var conn := g.next;
      g := g.(open := g.open[conn := true], next := conn + 1);
      if !answers[i] {
        g := g.(open := g.open - {conn});
        FilledSame(before, g, i);
        return false, g;
      }
      g := g.(slots := g.slots[g.size := conn], size := g.size + 1);
      FilledMore(before, g, i);
    }
    return true, g;
  }

  lemma FilledNone(g: Shared)
    requires g == Shared(false, map[], 0, map[], 0, 0)
    ensures Filled(g, 0)
  {
  }

  lemma FilledSame(g: Shared, g': Shared, n: nat)
    requires Filled(g, n) && g' == g.(open := g.open[g.next := true] - {g.next}, next := g.next + 1)
    ensures Filled(g', n)
  {
    assert g'.open == g.open;
    assert forall c | InPool(g, c) :: InPool(g', c);
  }

  lemma FilledMore(g: Shared, g': Shared, n: nat)
    requires Filled(g, n)
    requires g' == g.(open := g.open[g.next := true], next := g.next + 1, slots := g.slots[g.size := g.next], size := g.size + 1)
    ensures Filled(g', n + 1)
  {
    StoredMore(g, g');
    hide Stored;
    forall c | c in g'.open
      ensures InPool(g', c)
    {
      if c == g.next {
        assert g'.slots[n] == c;
      } else {
        assert InPool(g, c);
        var j :| 0 <= j < n && j in g.slots && g.slots[j] == c;
        assert g'.slots[j] == c;
      }
    }
  }

  lemma StoredMore(g: Shared, g': Shared)
    requires Stored(g, []) && forall c | c in g.open :: c < g.next
    requires g' == g.(open := g.open[g.next := true], next := g.next + 1, slots := g.slots[g.size := g.next], size := g.size + 1)
    ensures Stored(g', [])
  {
  }

  /** Threads that have not started yet. */
  function Fresh(n: nat): (threads: seq<Thread>)
    ensures |threads| == n && forall t | 0 <= t < n :: threads[t] == Thread(Idle, {})
    ensures Reconnecting(threads) == 0
  {
    if n == 0 then [] else [Thread(Idle, {})] + Fresh(n - 1)
  }

  // ---------- What holds in every run ----------

  /** The connections that are out of the pool. */
  ghost function Out(g: Shared): set<Conn> {
    set c | c in g.open && g.open[c] && !InPool(g, c)
  }

  ghost function Contents(g: Shared, n: nat): set<Conn>
    requires forall i | 0 <= i < n :: i in g.slots
  {
    set i | 0 <= i < n :: g.slots[i]
  }

  lemma {:induction false} ContentsCount(g: Shared, n: nat)
    requires forall i | 0 <= i < n :: i in g.slots
    requires forall i, j | 0 <= i < j < n :: g.slots[i] != g.slots[j]
    ensures |Contents(g, n)| == n
  {
    if n > 0 {
      ContentsCount(g, n - 1);
      ContentsMore(g, n - 1);
      hide Contents;
    }
  }

  lemma ContentsMore(g: Shared, n: nat)
    requires forall i | 0 <= i <= n :: i in g.slots
    requires forall i | 0 <= i < n :: g.slots[i] != g.slots[n]
    ensures Contents(g, n + 1) == Contents(g, n) + {g.slots[n]} && g.slots[n] !in Contents(g, n)
  {
  }

  lemma ContentsInPool(g: Shared)
    requires Stored(g, [])
    ensures forall i | 0 <= i < g.size :: i in g.slots
    ensures |Contents(g, g.size)| == g.size
    ensures forall c | c in Contents(g, g.size) :: c in g.open && g.open[c]
    ensures forall c :: c in Contents(g, g.size) <==> InPool(g, c)
  {
    ContentsCount(g, g.size);
  }

  lemma StoredAlone(g: Shared, threads: seq<Thread>)
    requires Stored(g, threads)
    ensures Stored(g, [])
  {
  }

  /** The pooled connections are the ones in the pool and the ones that are out. */
  lemma InAndOut(g: Shared, threads: seq<Thread>)
    requires Stored(g, threads)
    ensures |PooledOpen(g.open)| == g.size + |Out(g)|
  {
    hide InPool, Contents, Stored;
    StoredAlone(g, threads);
    ContentsInPool(g);
    var inside, all := Contents(g, g.size), PooledOpen(g.open);
    assert Out(g) == all - inside;
    assert all == inside + (all - inside);
  }

  lemma StartInv(g: Shared, n: nat, workers: nat)
    requires Filled(g, n)
    ensures Inv(Pool(g, Fresh(workers)), n)
  {
    StartStorage(g, n, Fresh(workers));
    InAndOut(g, []);
    assert Out(g) == {};
    hide InPool, Held, Stored, Owned, Placed, PooledOpen;
  }

  lemma StartStorage(g: Shared, n: nat, threads: seq<Thread>)
    requires Filled(g, n) && forall t | 0 <= t < |threads| :: threads[t].held == {}
    ensures Storage(g, threads)
  {
    assert forall c | c in g.open :: InPool(g, c);
    hide InPool;
  }

  /** In every run at most one thread at a time is between `lock` and `unlock`. */
  lemma MutualExclusion(g: Shared, n: nat, workers: nat, schedule: seq<(nat, Choice)>, t: nat, u: nat)
    requires Filled(g, n)
    ensures var s := Run(Pool(g, Fresh(workers)), schedule);
            t < u < |s.threads| ==> !(InSection(s.threads[t].pc) && InSection(s.threads[u].pc))
  {
    hide Run, Filled, Storage, Informed, Conserved, InSection;
    StartInv(g, n, workers);
    InvRun(Pool(g, Fresh(workers)), schedule, n);
  }

  /** In every run each open connection is in one slot of the pool, or in the hands of one thread, and not both. */
  lemma OncePlace(g: Shared, n: nat, workers: nat, schedule: seq<(nat, Choice)>, c: Conn)
    requires Filled(g, n)
    ensures var s := Run(Pool(g, Fresh(workers)), schedule);
            && (c in s.shared.open <==> InPool(s.shared, c) || Held(s.threads, c))
            && !(InPool(s.shared, c) && Held(s.threads, c))
            && (forall i, j | 0 <= i < j < s.shared.size && i in s.shared.slots && j in s.shared.slots ::
                  !(s.shared.slots[i] == c == s.shared.slots[j]))
            && (forall t, u | 0 <= t < u < |s.threads| :: !(c in s.threads[t].held && c in s.threads[u].held))
  {
    hide Run, Filled, Exclusive, Informed, Conserved;
    StartInv(g, n, workers);
    InvRun(Pool(g, Fresh(workers)), schedule, n);
  }

  /** In no run does a connection that was opened because the pool was empty get into the pool. */
  lemma OverflowStaysOut(g: Shared, n: nat, workers: nat, schedule: seq<(nat, Choice)>, c: Conn)
    requires Filled(g, n)
    ensures var s := Run(Pool(g, Fresh(workers)), schedule);
            c in s.shared.open && !s.shared.open[c] ==> !InPool(s.shared, c)
  {
    hide Run, Filled, Exclusive, Informed, Conserved, Owned, Placed;
    StartInv(g, n, workers);
    InvRun(Pool(g, Fresh(workers)), schedule, n);
  }

  /** A reconnect of a pooled connection that throws. */
  predicate Fails(s: Pool, t: nat, choice: Choice) {
    t < |s.threads| && s.threads[t].pc.Reconnect? && choice != Outcome(true)
  }

  /** How many reconnects throw in a run. */
  function Failures(s: Pool, schedule: seq<(nat, Choice)>): nat
    decreases |schedule|
  {
    if schedule == [] then 0
    else
      var (t, choice) := schedule[0];
      (if Fails(s, t, choice) then 1 else 0) + Failures(Step(s, t, choice), schedule[1..])
  }

  /** A step counts a loss if and only if a reconnect throws in it. */
  lemma LostStep(s: Pool, t: nat, choice: Choice)
    ensures Step(s, t, choice).shared.lost == s.shared.lost + if Fails(s, t, choice) then 1 else 0
  {
  }

  lemma {:induction false} LostCounts(s: Pool, schedule: seq<(nat, Choice)>)
    ensures Run(s, schedule).shared.lost == s.shared.lost + Failures(s, schedule)
    decreases |schedule|
  {
    hide Step, Fails;
    if schedule != [] {
      LostStep(s, schedule[0].0, schedule[0].1);
      LostCounts(Step(s, schedule[0].0, schedule[0].1), schedule[1..]);
    }
  }

  /**
   In every run the pooled connections in and out, those being reconnected and the reconnects that threw are as
   many as the connections at the start: never more than that without the last ones, and exactly that many if and
   only if no reconnect threw.
   */
  lemma Conservation(g: Shared, n: nat, workers: nat, schedule: seq<(nat, Choice)>)
    requires Filled(g, n)
    ensures var s, failed := Run(Pool(g, Fresh(workers)), schedule), Failures(Pool(g, Fresh(workers)), schedule);
            var alive := s.shared.size + |Out(s.shared)| + Reconnecting(s.threads);
            alive + failed == n && alive <= n && (alive == n <==> failed == 0)
  {
    hide Run, Failures, Exclusive, Stored, Owned, Placed, Informed, Out, PooledOpen, Reconnecting;
    StartInv(g, n, workers);
    InvRun(Pool(g, Fresh(workers)), schedule, n);
    LostCounts(Pool(g, Fresh(workers)), schedule);
    var s := Run(Pool(g, Fresh(workers)), schedule);
    InAndOut(s.shared, s.threads);
  }

  // ---------- The lock is given back ----------

  /** How many of its own steps a thread needs at most to give the lock back. */
  function StepsToUnlock(pc: Pc): nat {
    match pc
    case GetCheck => 4
    case GetBack => 3
    case GetPop(_) => 2
    case RelWrite(_) => 3
    case RelGrow(_) => 2
    case GetEmptyUnlock => 1
    case GetUnlock(_) => 1
    case RelUnlock => 1
    case _ => 0
  }

  /** Whatever the others did before, a step of the thread that has the lock brings it nearer to giving it back. */
  lemma SectionProgress(s: Pool, t: nat, choice: Choice, poolSize: nat)
    requires Inv(s, poolSize) && t < |s.threads| && InSection(s.threads[t].pc)
    ensures var s' := Step(s, t, choice);
            && StepsToUnlock(s'.threads[t].pc) < StepsToUnlock(s.threads[t].pc)
            && (s'.shared.locked ==> InSection(s'.threads[t].pc))
  {
    hide Exclusive, Conserved, Owned, Placed;
    assert Local(s.shared, s.threads[t]);
    assert TopPooled(s.shared);
  }
}
