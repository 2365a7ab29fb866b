/** What every run of the connection pool keeps. */
module ConnPoolProofs {
  import opened Ledger
  import opened ConnPool

  /** What a part of the state owns: a unit of connsCount, a connection, or the right to answer a waiter. */
  datatype Asset = Slot | Conn(c: nat) | Tok(w: nat)

  function One(b: bool): nat { if b then 1 else 0 }

  ghost function ConnHas(c: nat, a: Asset): nat { One(a == Slot) + One(a == Conn(c)) }

  ghost function TokHas(w: nat, a: Asset): nat { One(a == Tok(w)) }

  /** A connection delivered to a waiter belongs to the waiter until its caller claims it. */
  ghost function WaiterHas(x: WantConn, a: Asset): nat
  {
    if x.conn.Some? && !x.claimed then ConnHas(x.conn.value, a) else 0
  }

  ghost function SockHas(sock: Option<nat>, a: Asset): nat
  {
    if sock.Some? then One(a == Conn(sock.value)) else 0
  }

  ghost function TodoHas(todo: seq<nat>, a: Asset): nat { Tally(todo, ConnHas, a) }

  ghost function PcHas(pc: Pc, a: Asset): nat
  {
    match pc
    case Dialing => One(a == Slot)
    case ClearDrop(_, f) => TokHas(f, a)
    case Holding(c) => ConnHas(c, a)
    case Releasing(c) => ConnHas(c, a)
    case RelLoop(c) => ConnHas(c, a)
    case RelPopped(c, w) => ConnHas(c, a) + TokHas(w, a)
    case RelTry(c, w) => ConnHas(c, a) + TokHas(w, a)
    case RelDrop(c, w) => ConnHas(c, a) + TokHas(w, a)
    case Closing(todo) => TodoHas(todo, a)
    case DecStart(sock, todo) => One(a == Slot) + SockHas(sock, a) + TodoHas(todo, a)
    case DecLoop(sock, todo) => One(a == Slot) + SockHas(sock, a) + TodoHas(todo, a)
    case DecPopped(sock, todo, w) => One(a == Slot) + SockHas(sock, a) + TodoHas(todo, a) + TokHas(w, a)
    case DecDrop(sock, todo, w) => One(a == Slot) + SockHas(sock, a) + TodoHas(todo, a) + TokHas(w, a)
    case CloseSock(c, todo) => One(a == Conn(c)) + TodoHas(todo, a)
    case DialFor(w) => One(a == Slot) + TokHas(w, a)
    case DialGot(c, w) => ConnHas(c, a) + TokHas(w, a)
    case DialErr(w) => One(a == Slot) + TokHas(w, a)
    case _ => 0
  }

  /** How often asset `a` is owned, over the whole state. */
  ghost function Has(s: State, a: Asset): nat
  {
    Tally(s.conns, ConnHas, a) + Tally(s.queue, TokHas, a)
    + Tally(s.waiters, WaiterHas, a) + Tally(s.threads, PcHas, a)
  }

  /** The share of a waiter in failedWaiters. */
  ghost function Owed(x: WantConn): int { if x.counted && !x.dropped then 1 else 0 }

  // ---- the invariant ----

  /** connsCount is what is owned; a connection once dialed has one owner or is closed; one right per waiter. */
  ghost predicate LedgerOk(cfg: Config, s: State)
  {
    && s.connsCount == Has(s, Slot)
    && (cfg.maxConns >= 0 ==> s.connsCount <= cfg.maxConns)
    && (forall c: nat :: Has(s, Conn(c)) + s.closed[c] == if c < s.nextConn then 1 else 0)
    && (forall w: nat :: Has(s, Tok(w)) <= 1)
  }

  ghost predicate WaiterOk(x: WantConn)
  {
    && x.closes == (if x.Settled() then 1 else 0)
    && (x.dropped ==> x.counted)
    && (x.conn.Some? ==> !x.failed)
    && (x.claimed ==> x.conn.Some?)
    && (!x.queued ==> !x.Settled() && !x.counted && !x.dropped)
  }

  ghost predicate TokenOk(x: WantConn)
  {
    x.queued && !x.dropped && (x.Settled() ==> x.counted)
  }

  /** The waiters agree with their own flags, with failedWaiters and with the rights in circulation. */
  ghost predicate WaitersOk(s: State)
  {
    && (forall w :: 0 <= w < |s.waiters| ==> WaiterOk(s.waiters[w]))
    && (forall k :: 0 <= k < |s.queue| ==> s.queue[k] < |s.waiters|)
    && (forall w: nat :: Has(s, Tok(w)) > 0 ==> w < |s.waiters| && TokenOk(s.waiters[w]))
    && s.failedWaiters == Count(s.waiters, Owed)
  }

  /** What the owner of a waiter knows about it at each point of acquireConn. */
  ghost predicate OwnerOk(x: WantConn, t: nat, pc: Pc)
  {
    if pc.Waiting? then x.owner == t && x.queued && !x.claimed && !x.counted
    else if pc.Cancelling? then x.owner == t && x.queued && !x.claimed && (x.counted || x.Settled())
    else if pc.Enqueue? || pc.Clearing? || pc.ClearDrop? then x.owner == t && !x.queued
    else (pc.RelDrop? || pc.DecDrop?) ==> x.Settled()
  }

  ghost predicate PcOk(s: State, t: nat, pc: Pc)
  {
    && PcInRange(pc, |s.waiters|)
    && (pc.Locked() <==> s.lock == Some(t))
    && (pc.Named() ==> OwnerOk(s.waiters[pc.w], t, pc))
    && (pc.ClearDrop? ==> s.waiters[pc.front].Settled())
  }

  ghost predicate Inv(cfg: Config, s: State)
  {
    && LedgerOk(cfg, s)
    && WaitersOk(s)
    && PcsOk(s)
  }

  ghost predicate PcsOk(s: State)
  {
    && (s.lock.Some? ==> s.lock.value < |s.threads|)
    && (forall t :: 0 <= t < |s.threads| ==> PcOk(s, t, s.threads[t]))
  }

  // ---- how ownership reacts to one change ----

  lemma HasGoto(s: State, t: nat, pc: Pc)
    requires t < |s.threads|
    ensures forall a :: Has(s.Goto(t, pc), a) == Has(s, a) - PcHas(s.threads[t], a) + PcHas(pc, a)
  {
    forall a
      ensures Has(s.Goto(t, pc), a) == Has(s, a) - PcHas(s.threads[t], a) + PcHas(pc, a)
    {
      TallyUpdate(s.threads, t, pc, PcHas, a);
    }
  }

  lemma HasWaiter(s: State, w: nat, x: WantConn)
    requires w < |s.waiters|
    ensures forall a :: Has(s.(waiters := s.waiters[w := x]), a)
                     == Has(s, a) - WaiterHas(s.waiters[w], a) + WaiterHas(x, a)
  {
    forall a
      ensures Has(s.(waiters := s.waiters[w := x]), a) == Has(s, a) - WaiterHas(s.waiters[w], a) + WaiterHas(x, a)
    {
      TallyUpdate(s.waiters, w, x, WaiterHas, a);
    }
  }

  lemma HasSpawn(s: State, pc: Pc)
    ensures forall a :: Has(s.(threads := s.threads + [pc]), a) == Has(s, a) + PcHas(pc, a)
  {
    forall a
      ensures Has(s.(threads := s.threads + [pc]), a) == Has(s, a) + PcHas(pc, a)
    {
      TallyPush(s.threads, pc, PcHas, a);
    }
  }

  lemma HasPop(s: State)
    requires s.queue != []
    ensures forall a :: Has(s.(queue := s.queue[1..]), a) == Has(s, a) - TokHas(s.queue[0], a)
  {
    hide Tally, TokHas;
    forall a
      ensures Has(s.(queue := s.queue[1..]), a) == Has(s, a) - TokHas(s.queue[0], a)
    {
      TallyRemove(s.queue, 0, TokHas, a);
      assert s.queue[..0] + s.queue[1..] == s.queue[1..];
    }
  }

  lemma HasPush(s: State, w: nat)
    ensures forall a :: Has(s.(queue := s.queue + [w]), a) == Has(s, a) + TokHas(w, a)
  {
    forall a
      ensures Has(s.(queue := s.queue + [w]), a) == Has(s, a) + TokHas(w, a)
    {
      TallyPush(s.queue, w, TokHas, a);
    }
  }

  lemma HasIdle(s: State, c: nat)
    ensures forall a :: Has(s.(conns := s.conns + [c]), a) == Has(s, a) + ConnHas(c, a)
  {
    forall a
      ensures Has(s.(conns := s.conns + [c]), a) == Has(s, a) + ConnHas(c, a)
    {
      TallyPush(s.conns, c, ConnHas, a);
    }
  }

  lemma HasUnidle(s: State, i: nat)
    requires i < |s.conns|
    ensures forall a :: Has(s.(conns := s.conns[..i] + s.conns[i + 1..]), a) == Has(s, a) - ConnHas(s.conns[i], a)
  {
    forall a
      ensures Has(s.(conns := s.conns[..i] + s.conns[i + 1..]), a) == Has(s, a) - ConnHas(s.conns[i], a)
    {
      TallyRemove(s.conns, i, ConnHas, a);
    }
  }

  lemma HasTake(s: State, k: nat)
    requires k <= |s.conns|
    ensures forall a :: Has(s.(conns := s.conns[k..]), a) == Has(s, a) - TodoHas(s.conns[..k], a)
  {
    forall a
      ensures Has(s.(conns := s.conns[k..]), a) == Has(s, a) - TodoHas(s.conns[..k], a)
    {
      assert s.conns == s.conns[..k] + s.conns[k..];
      TallyAppend(s.conns[..k], s.conns[k..], ConnHas, a);
    }
  }

  // ---- other threads do not notice ----

  /** What a step of thread t may do to a waiter. */
  ghost predicate Rely(t: nat, x: WantConn, y: WantConn)
  {
    && y.owner == x.owner
    && (x.Settled() ==> y.Settled())
    && (x.owner != t ==> y.queued == x.queued && y.claimed == x.claimed && y.counted == x.counted)
  }

  ghost predicate RelyAll(t: nat, s: State, s': State)
  {
    && |s.waiters| <= |s'.waiters|
    && forall w :: 0 <= w < |s.waiters| ==> Rely(t, s.waiters[w], s'.waiters[w])
  }

  lemma PcStable(s: State, s': State, t: nat, u: nat, pc: Pc)
    requires RelyAll(t, s, s') && u != t && PcOk(s, u, pc)
    requires (s'.lock == Some(u)) <==> (s.lock == Some(u))
    ensures PcOk(s', u, pc)
  {
    if pc.Named() {
      assert Rely(t, s.waiters[pc.w], s'.waiters[pc.w]);
      assert pc.ClearDrop? ==> Rely(t, s.waiters[pc.front], s'.waiters[pc.front]);
    }
  }

  /** Thread t moved (and perhaps started a thread); nobody else's program counter changed. */
  lemma PcsKeep(s: State, s': State, t: nat)
    requires PcsOk(s) && t < |s.threads| <= |s'.threads|
    requires forall u :: 0 <= u < |s.threads| && u != t ==> s'.threads[u] == s.threads[u]
    requires RelyAll(t, s, s')
    requires s'.lock == s.lock || (s.lock in {None, Some(t)} && s'.lock in {None, Some(t)})
    requires PcOk(s', t, s'.threads[t])
    requires forall u :: |s.threads| <= u < |s'.threads| ==> PcOk(s', u, s'.threads[u])
    ensures PcsOk(s')
  {
    forall u | 0 <= u < |s'.threads| ensures PcOk(s', u, s'.threads[u]) {
      if u < |s.threads| && u != t {
        assert s'.threads[u] == s.threads[u];
        PcStable(s, s', t, u, s.threads[u]);
      }
    }
  }

  /** The same when no waiter changes and t moves from pc to pc'. */
  lemma PcsGoto(s: State, s': State, t: nat, pc: Pc)
    requires PcsOk(s) && t < |s.threads| && s'.threads == s.threads[t := pc]
    requires s'.waiters == s.waiters
    requires s'.lock == s.lock || (s.lock in {None, Some(t)} && s'.lock in {None, Some(t)})
    requires PcOk(s', t, pc)
    ensures PcsOk(s')
  {
    hide PcOk;
    assert RelyAll(t, s, s');
    PcsKeep(s, s', t);
  }

  /** The same when waiter w becomes y. */
  lemma PcsWaiter(s: State, s': State, t: nat, pc: Pc, w: nat, y: WantConn)
    requires PcsOk(s) && t < |s.threads| && s'.threads == s.threads[t := pc]
    requires w < |s.waiters| && s'.waiters == s.waiters[w := y] && Rely(t, s.waiters[w], y)
    requires s'.lock == s.lock || (s.lock in {None, Some(t)} && s'.lock in {None, Some(t)})
    requires PcOk(s', t, pc)
    ensures PcsOk(s')
  {
    hide PcOk;
    assert RelyAll(t, s, s');
    PcsKeep(s, s', t);
  }

  // ---- the ledger and the waiters across one step ----

  /** connsCount and the owned slots change by d; perhaps a connection is born or finally closed. */
  lemma LedgerMove(cfg: Config, s: State, s': State, d: int, born: bool, dead: Option<nat>)
    requires LedgerOk(cfg, s)
    requires s'.connsCount == s.connsCount + d && Has(s', Slot) == Has(s, Slot) + d
    requires d > 0 && cfg.maxConns >= 0 ==> s'.connsCount <= cfg.maxConns
    requires s'.nextConn == s.nextConn + One(born)
    requires s'.closed == if dead.Some? then s.closed + multiset{dead.value} else s.closed
    requires forall c: nat :: Has(s', Conn(c)) == Has(s, Conn(c)) + One(born && c == s.nextConn) - One(dead == Some(c))
    requires forall w: nat :: Has(s', Tok(w)) <= Has(s, Tok(w))
    ensures LedgerOk(cfg, s')
  {
    hide Has;
  }

  lemma LedgerSame(cfg: Config, s: State, s': State)
    requires LedgerOk(cfg, s)
    requires s'.connsCount == s.connsCount && s'.closed == s.closed && s'.nextConn == s.nextConn
    requires Has(s', Slot) == Has(s, Slot)
    requires forall c: nat :: Has(s', Conn(c)) == Has(s, Conn(c))
    requires forall w: nat :: Has(s', Tok(w)) <= Has(s, Tok(w))
    ensures LedgerOk(cfg, s')
  {
    hide Has;
  }

  lemma WaitersSame(s: State, s': State)
    requires WaitersOk(s)
    requires forall w: nat :: Has(s', Tok(w)) <= Has(s, Tok(w))
    requires s'.waiters == s.waiters && s'.failedWaiters == s.failedWaiters
    requires s'.queue == s.queue || (s.queue != [] && s'.queue == s.queue[1..])
    ensures WaitersOk(s')
  {
    hide Has;
  }

  lemma WaitersUpdate(s: State, s': State, w: nat, y: WantConn)
    requires WaitersOk(s) && w < |s.waiters|
    requires s'.waiters == s.waiters[w := y] && WaiterOk(y)
    requires s'.failedWaiters == s.failedWaiters - Owed(s.waiters[w]) + Owed(y)
    requires forall v: nat :: v != w ==> Has(s', Tok(v)) <= Has(s, Tok(v))
    requires Has(s', Tok(w)) > 0 ==> TokenOk(y)
    requires s'.queue in {s.queue, s.queue + [w]}
    ensures WaitersOk(s')
  {
    hide Has;
    CountUpdate(s.waiters, w, y, Owed);
  }

  // ---- every step keeps the invariant ----

  lemma PlainPc(s: State, t: nat, pc: Pc)
    requires !pc.Named() && (pc.Locked() <==> s.lock == Some(t))
    ensures PcOk(s, t, pc)
  {
  }

  /** Has looks at four fields only. */
  lemma HasEq(s: State, s': State)
    requires s'.conns == s.conns && s'.queue == s.queue && s'.waiters == s.waiters && s'.threads == s.threads
    ensures forall a :: Has(s', a) == Has(s, a)
  {
  }

  /** A step of t that only moves t on: what it owns and the lock stay, and so do waiters and counters. */
  lemma KeepGoto(cfg: Config, s: State, t: nat, pc: Pc)
    requires Inv(cfg, s) && t < |s.threads|
    requires forall a :: PcHas(pc, a) == PcHas(s.threads[t], a)
    requires PcOk(s.Goto(t, pc), t, pc)
    ensures Inv(cfg, s.Goto(t, pc))
  {
    hide PcOk, PcHas, Has, PcsOk, LedgerOk, WaitersOk;
    var s' := s.Goto(t, pc);
    HasGoto(s, t, pc);
    PcsGoto(s, s', t, pc);
    LedgerSame(cfg, s, s');
    WaitersSame(s, s');
  }

  lemma KeepReserve(cfg: Config, s: State, t: nat)
    requires Inv(cfg, s) && t < |s.threads| && s.threads[t].AtStart? && s.lock.None?
    requires s.connsCount < cfg.maxConns || cfg.maxConns < 0
    ensures Inv(cfg, s.(connsCount := s.connsCount + 1).Goto(t, Dialing))
  {
    hide PcOk, Has, PcsOk, LedgerOk, WaitersOk, Tally;
    var s1 := s.(connsCount := s.connsCount + 1);
    var s' := s1.Goto(t, Dialing);
    HasEq(s, s1);
    HasGoto(s1, t, Dialing);
    PlainPc(s', t, Dialing);
    PcsGoto(s, s', t, Dialing);
    LedgerMove(cfg, s, s', 1, false, None);
    WaitersSame(s, s');
  }

  lemma KeepNewWaiter(cfg: Config, s: State, t: nat)
    requires Inv(cfg, s) && t < |s.threads| && s.threads[t].AtStart? && s.lock.None?
    ensures var w := WantConn(t, None, false, 0, false, false, false, false);
            Inv(cfg, s.(waiters := s.waiters + [w]).Goto(t, Enqueue(|s.waiters|)))
  {
    hide Has, PcsOk, LedgerOk, Tally, Count;
    var w := WantConn(t, None, false, 0, false, false, false, false);
    var s1 := s.(waiters := s.waiters + [w]);
    var pc := Enqueue(|s.waiters|);
    var s' := s1.Goto(t, pc);
    HasNewWaiter(s, w);
    CountPush(s.waiters, w, Owed);
    HasGoto(s1, t, pc);
    assert RelyAll(t, s, s');
    PcsKeep(s, s', t);
    LedgerSame(cfg, s, s');
  }

  lemma HasNewWaiter(s: State, w: WantConn)
    requires w.conn.None?
    ensures forall a :: Has(s.(waiters := s.waiters + [w]), a) == Has(s, a)
  {
    forall a ensures Has(s.(waiters := s.waiters + [w]), a) == Has(s, a) {
      TallyPush(s.waiters, w, WaiterHas, a);
    }
  }

  lemma KeepTakeIdle(cfg: Config, s: State, t: nat, i: nat)
    requires Inv(cfg, s) && t < |s.threads| && s.threads[t].AtStart? && s.lock.None? && i < |s.conns|
    ensures Inv(cfg, s.(conns := s.conns[..i] + s.conns[i + 1..]).Goto(t, Holding(s.conns[i])))
  {
    hide PcOk, Has, PcsOk, LedgerOk, WaitersOk, Tally;
    var pc := Holding(s.conns[i]);
    var s1 := s.(conns := s.conns[..i] + s.conns[i + 1..]);
    var s' := s1.Goto(t, pc);
    HasUnidle(s, i);
    HasGoto(s1, t, pc);
    PlainPc(s', t, pc);
    PcsGoto(s, s', t, pc);
    LedgerSame(cfg, s, s');
    WaitersSame(s, s');
  }

  lemma KeepAcquire(cfg: Config, s: State, t: nat)
    requires Inv(cfg, s) && t < |s.threads| && s.threads[t].AtStart? && s.lock.None?
    ensures Inv(cfg, Acquire(cfg, s, t))
  {
    hide Inv;
    var n := |s.conns|;
    if n == 0 {
      if s.connsCount < cfg.maxConns || cfg.maxConns < 0 {
        KeepReserve(cfg, s, t);
      } else if cfg.wait == 0 {
        PlainPc(s.Goto(t, Done), t, Done);
        KeepGoto(cfg, s, t, Done);
      } else {
        KeepNewWaiter(cfg, s, t);
      }
    } else {
      assert s.conns[..n - 1] == s.conns[..n - 1] + s.conns[n..];
      assert s.conns[1..] == s.conns[..0] + s.conns[1..];
      KeepTakeIdle(cfg, s, t, if cfg.lifo then n - 1 else 0);
    }
  }

  /** A dial, the caller's own or one for a waiter, has produced a connection. */
  lemma KeepBorn(cfg: Config, s: State, t: nat, pc: Pc)
    requires Inv(cfg, s) && t < |s.threads|
    requires (s.threads[t].Dialing? && pc == Holding(s.nextConn))
          || (s.threads[t].DialFor? && pc == DialGot(s.nextConn, s.threads[t].w))
    requires PcOk(s.Goto(t, pc), t, pc)
    ensures Inv(cfg, s.(nextConn := s.nextConn + 1).Goto(t, pc))
  {
    hide PcOk, Has, PcsOk, LedgerOk, WaitersOk, Tally;
    var s1 := s.(nextConn := s.nextConn + 1);
    var s' := s1.Goto(t, pc);
    HasEq(s, s1);
    HasGoto(s1, t, pc);
    PcOkSame(s.Goto(t, pc), s', t, pc);
    PcsGoto(s, s', t, pc);
    LedgerMove(cfg, s, s', 0, true, None);
    WaitersSame(s, s');
  }

  lemma PcOkSame(s: State, s': State, t: nat, pc: Pc)
    requires PcOk(s, t, pc) && s'.waiters == s.waiters && s'.lock == s.lock
    ensures PcOk(s', t, pc)
  {
  }

  lemma LockOf(s: State, t: nat)
    requires PcsOk(s) && t < |s.threads|
    ensures s.threads[t].Locked() <==> s.lock == Some(t)
    ensures PcInRange(s.threads[t], |s.waiters|)
  {
    assert PcOk(s, t, s.threads[t]);
  }

  lemma NothingToClose(a: Asset)
    ensures TodoHas([], a) == 0
  {
  }

  lemma KeepDialDone(cfg: Config, s: State, t: nat, ok: bool)
    requires Inv(cfg, s) && t < |s.threads| && s.threads[t].Dialing?
    ensures Inv(cfg, DialDone(s, t, ok))
  {
    hide PcsOk, LedgerOk, WaitersOk, PcOk, Has, Tally, TodoHas;
    LockOf(s, t);
    if ok {
      PlainPc(s.Goto(t, Holding(s.nextConn)), t, Holding(s.nextConn));
      KeepBorn(cfg, s, t, Holding(s.nextConn));
    } else {
      PlainPc(s.Goto(t, DecStart(None, [])), t, DecStart(None, []));
      forall a { NothingToClose(a); }
      KeepGoto(cfg, s, t, DecStart(None, []));
    }
  }

  /** Thread t takes the front of the queue off. */
  lemma KeepPop(cfg: Config, s: State, t: nat, pc: Pc)
    requires Inv(cfg, s) && t < |s.threads| && s.queue != []
    requires var was := s.threads[t];
             || (was.Clearing? && pc == ClearDrop(was.w, s.queue[0]))
             || (was.RelLoop? && pc == RelPopped(was.c, s.queue[0]))
             || (was.DecLoop? && pc == DecPopped(was.sock, was.todo, s.queue[0]))
    requires PcOk(s.Goto(t, pc), t, pc)
    ensures Inv(cfg, s.(queue := s.queue[1..]).Goto(t, pc))
  {
    hide PcOk, Has, PcsOk, LedgerOk, WaitersOk, Tally;
    var s1 := s.(queue := s.queue[1..]);
    var s' := s1.Goto(t, pc);
    HasPop(s);
    HasGoto(s1, t, pc);
    PcOkSame(s.Goto(t, pc), s', t, pc);
    PcsGoto(s, s', t, pc);
    LedgerSame(cfg, s, s');
    WaitersSame(s, s');
  }

  /** The lock is taken or given back while t moves on; what t owns stays. */
  lemma KeepLock(cfg: Config, s: State, t: nat, lock: Option<nat>, pc: Pc)
    requires Inv(cfg, s) && t < |s.threads|
    requires s.lock in {None, Some(t)} && lock in {None, Some(t)}
    requires forall a :: PcHas(pc, a) == PcHas(s.threads[t], a)
    requires PcOk(s.(lock := lock).Goto(t, pc), t, pc)
    ensures Inv(cfg, s.(lock := lock).Goto(t, pc))
  {
    hide PcOk, PcHas, Has, PcsOk, LedgerOk, WaitersOk, Tally;
    var s1 := s.(lock := lock);
    var s' := s1.Goto(t, pc);
    HasEq(s, s1);
    HasGoto(s1, t, pc);
    PcsGoto(s, s', t, pc);
    LedgerSame(cfg, s, s');
    WaitersSame(s, s');
  }

  lemma KeepEnqueue(cfg: Config, s: State, t: nat)
    requires Inv(cfg, s) && t < |s.threads| && s.threads[t].Enqueue? && s.lock.None?
    ensures Inv(cfg, s.(lock := Some(t)).Goto(t, Clearing(s.threads[t].w)))
  {
    assert PcOk(s, t, s.threads[t]);
    KeepLock(cfg, s, t, Some(t), Clearing(s.threads[t].w));
  }

  /** The front of the queue exists as a waiter, and an answered one was counted. */
  lemma FrontOk(s: State)
    requires WaitersOk(s) && s.queue != []
    ensures s.queue[0] < |s.waiters| && WaiterOk(s.waiters[s.queue[0]])
  {
  }

  lemma KeepClearFront(cfg: Config, s: State, t: nat)
    requires Inv(cfg, s) && t < |s.threads| && s.threads[t].Clearing?
    ensures InRange(s) ==> Inv(cfg, ClearFront(s, t, s.threads[t].w))
  {
    assert PcOk(s, t, s.threads[t]);
    hide PcsOk, LedgerOk, Has, Tally;
    var w := s.threads[t].w;
    if s.queue != [] && !s.waiters[s.queue[0]].Waiting() {
      FrontOk(s);
      KeepPop(cfg, s, t, ClearDrop(w, s.queue[0]));
    } else {
      KeepPushBack(cfg, s, t);
    }
  }

  lemma KeepPushBack(cfg: Config, s: State, t: nat)
    requires Inv(cfg, s) && t < |s.threads| && s.threads[t].Clearing? && s.threads[t].w < |s.waiters|
    ensures var w := s.threads[t].w;
            Inv(cfg, s.(queue := s.queue + [w], waiters := s.waiters[w := s.waiters[w].(queued := true)], lock := None)
                     .Goto(t, Waiting(w)))
  {
    hide PcsOk, LedgerOk, WaitersOk, PcOk, Has, Tally, TodoHas;
    var w := s.threads[t].w;
    var y := s.waiters[w].(queued := true);
    var pc := Waiting(w);
    var s1 := s.(queue := s.queue + [w]);
    var s2 := s1.(waiters := s.waiters[w := y]);
    var s3 := s2.(lock := None);
    var s' := s3.Goto(t, pc);
    PushedPc(s, s', t, w, y);
    HasPush(s, w);
    HasWaiter(s1, w, y);
    HasEq(s2, s3);
    HasGoto(s3, t, pc);
    PcsWaiter(s, s', t, pc, w, y);
    WaitersUpdate(s, s', w, y);
    LedgerPush(cfg, s, s', w);
  }

  lemma PushedPc(s: State, s': State, t: nat, w: nat, y: WantConn)
    requires PcsOk(s) && WaitersOk(s) && t < |s.threads| && s.threads[t] == Clearing(w) && w < |s.waiters|
    requires y == s.waiters[w].(queued := true) && s'.waiters == s.waiters[w := y] && s'.lock.None?
    ensures PcOk(s', t, Waiting(w)) && s.lock == Some(t)
    ensures WaiterOk(s.waiters[w]) && !s.waiters[w].queued && WaiterOk(y) && TokenOk(y) && Owed(y) == Owed(s.waiters[w])
    ensures forall a :: WaiterHas(y, a) == WaiterHas(s.waiters[w], a)
    ensures Rely(t, s.waiters[w], y)
  {
    assert PcOk(s, t, s.threads[t]);
    assert WaiterOk(s.waiters[w]);
  }

  /** A waiter that was never queued has no right in circulation, so the new one is the only one. */
  lemma LedgerPush(cfg: Config, s: State, s': State, w: nat)
    requires LedgerOk(cfg, s) && WaitersOk(s) && w < |s.waiters| && !s.waiters[w].queued
    requires s'.connsCount == s.connsCount && s'.closed == s.closed && s'.nextConn == s.nextConn
    requires Has(s', Slot) == Has(s, Slot)
    requires forall c: nat :: Has(s', Conn(c)) == Has(s, Conn(c))
    requires forall v: nat :: Has(s', Tok(v)) <= Has(s, Tok(v)) + One(v == w)
    ensures LedgerOk(cfg, s')
  {
    hide Has;
    assert !TokenOk(s.waiters[w]);
    assert Has(s, Tok(w)) == 0;
  }

  /** The right to answer w moves or is used up; only then may w end up with a state that has none. */
  ghost predicate TokenMove(w: nat, x: WantConn, y: WantConn, pc: Pc, pc': Pc)
  {
    (TokenOk(x) ==> TokenOk(y)) || PcHas(pc', Tok(w)) < PcHas(pc, Tok(w))
  }

  /** Thread t changes waiter w to y and moves on, taking over what w lost or giving w what it gained. */
  lemma KeepWaiter(cfg: Config, s: State, t: nat, w: nat, y: WantConn, failed: int, lock: Option<nat>, pc: Pc)
    requires Inv(cfg, s) && t < |s.threads| && w < |s.waiters|
    requires Rely(t, s.waiters[w], y) && WaiterOk(y) && TokenMove(w, s.waiters[w], y, s.threads[t], pc)
    requires failed == s.failedWaiters - Owed(s.waiters[w]) + Owed(y)
    requires lock == s.lock || (s.lock in {None, Some(t)} && lock in {None, Some(t)})
    requires forall a: Asset :: !a.Tok? ==> WaiterHas(y, a) + PcHas(pc, a) == WaiterHas(s.waiters[w], a) + PcHas(s.threads[t], a)
    requires forall v: nat :: PcHas(pc, Tok(v)) <= PcHas(s.threads[t], Tok(v))
    requires PcOk(s.(waiters := s.waiters[w := y], failedWaiters := failed, lock := lock).Goto(t, pc), t, pc)
    ensures Inv(cfg, s.(waiters := s.waiters[w := y], failedWaiters := failed, lock := lock).Goto(t, pc))
  {
    hide PcsOk, LedgerOk, WaitersOk, PcOk, Has, Tally, TodoHas, PcHas, Owed, WaiterOk, TokenOk;
    var x := s.waiters[w];
    var s1 := s.(waiters := s.waiters[w := y]);
    var s2 := s1.(failedWaiters := failed, lock := lock);
    var s' := s2.Goto(t, pc);
    HasWaiter(s, w, y);
    HasEq(s1, s2);
    HasGoto(s2, t, pc);
    PcsWaiter(s, s', t, pc, w, y);
    LedgerSame(cfg, s, s');
    LastToken(cfg, s, s', w);
    WaitersUpdate(s, s', w, y);
  }

  /** At most one right per waiter: when it is used up none is left, else the waiter had one before. */
  lemma LastToken(cfg: Config, s: State, s': State, w: nat)
    requires LedgerOk(cfg, s) && WaitersOk(s)
    requires Has(s', Tok(w)) <= Has(s, Tok(w))
    ensures Has(s', Tok(w)) > 0 ==> w < |s.waiters| && TokenOk(s.waiters[w]) && Has(s', Tok(w)) == Has(s, Tok(w))
  {
    hide Has;
  }

  /** Whoever holds the right to answer w. */
  lemma HoldsToken(s: State, t: nat, w: nat)
    requires WaitersOk(s) && t < |s.threads| && PcHas(s.threads[t], Tok(w)) > 0
    ensures w < |s.waiters| && TokenOk(s.waiters[w]) && WaiterOk(s.waiters[w])
  {
    hide Tally, PcHas, TokenOk, WaiterOk;
    TallyRemove(s.threads, t, PcHas, Tok(w));
    assert Has(s, Tok(w)) > 0;
  }

  /** The three loops that pop `f` as no longer waiting, and where they go on. */
  ghost predicate Dropping(was: Pc, f: nat, pc: Pc)
  {
    || (was.ClearDrop? && f == was.front && pc == Clearing(was.w))
    || (was.RelDrop? && f == was.w && pc == RelLoop(was.c))
    || (was.DecDrop? && f == was.w && pc == DecLoop(was.sock, was.todo))
  }

  lemma DroppingHas(was: Pc, f: nat, pc: Pc)
    requires Dropping(was, f, pc)
    ensures forall a :: PcHas(was, a) == PcHas(pc, a) + TokHas(f, a)
  {
    hide TodoHas, SockHas;
  }

  lemma DroppingPc(s: State, t: nat, f: nat, pc: Pc)
    requires WaitersOk(s) && PcsOk(s) && t < |s.threads| && f < |s.waiters| && Dropping(s.threads[t], f, pc)
    ensures s.waiters[f].Settled()
    ensures PcOk(CountOff(s, f).Goto(t, pc), t, pc)
  {
    hide WaitersOk, PcHas;
    assert PcOk(s, t, s.threads[t]);
  }

  /** failedWaiters.Add(-1) after popping `f`. */
  lemma KeepCountOff(cfg: Config, s: State, t: nat, f: nat, pc: Pc)
    requires Inv(cfg, s) && t < |s.threads| && f < |s.waiters| && Dropping(s.threads[t], f, pc)
    ensures Inv(cfg, CountOff(s, f).Goto(t, pc))
  {
    hide PcsOk, LedgerOk, WaitersOk, PcOk, Has, Tally, PcHas;
    DroppingHas(s.threads[t], f, pc);
    DroppingPc(s, t, f, pc);
    HoldsToken(s, t, f);
    var y := s.waiters[f].(dropped := true);
    assert CountOff(s, f) == s.(waiters := s.waiters[f := y], failedWaiters := s.failedWaiters - 1, lock := s.lock);
    KeepWaiter(cfg, s, t, f, y, s.failedWaiters - 1, s.lock, pc);
  }

  lemma KeepSelect(cfg: Config, s: State, t: nat, timer: bool)
    requires Inv(cfg, s) && t < |s.threads| && s.threads[t].Waiting? && s.threads[t].w < |s.waiters|
    ensures Inv(cfg, Select(cfg, s, t, s.threads[t].w, timer))
  {
    hide PcsOk, LedgerOk, WaitersOk, Has, Tally;
    var w := s.threads[t].w;
    var x := s.waiters[w];
    OwnedWaiter(s, t);
    if timer && cfg.wait > 0 {
      KeepWaiter(cfg, s, t, w, x.(counted := true), s.failedWaiters + 1, s.lock, Cancelling(w));
    } else if !timer && x.closes > 0 {
      if x.conn.Some? {
        KeepWaiter(cfg, s, t, w, x.(claimed := true), s.failedWaiters, s.lock, Holding(x.conn.value));
      } else {
        KeepGoto(cfg, s, t, Cancelling(w));
      }
    }
  }

  lemma OwnedWaiter(s: State, t: nat)
    requires WaitersOk(s) && PcsOk(s) && t < |s.threads| && s.threads[t].Named()
    ensures s.threads[t].w < |s.waiters|
    ensures OwnerOk(s.waiters[s.threads[t].w], t, s.threads[t]) && WaiterOk(s.waiters[s.threads[t].w])
    ensures s.lock == Some(t) <==> s.threads[t].Locked()
  {
    hide Has;
    assert PcOk(s, t, s.threads[t]);
  }

  lemma KeepCancel(cfg: Config, s: State, t: nat)
    requires Inv(cfg, s) && t < |s.threads| && s.threads[t].Cancelling? && s.threads[t].w < |s.waiters|
    ensures Inv(cfg, Cancel(s, t, s.threads[t].w))
  {
    hide PcsOk, LedgerOk, WaitersOk, Has, Tally;
    var w := s.threads[t].w;
    var x := s.waiters[w];
    OwnedWaiter(s, t);
    KeepWaiter(cfg, s, t, w, CancelWaiter(x), s.failedWaiters, s.lock,
               if x.conn.Some? then Releasing(x.conn.value) else Done);
  }

  /** Connection c goes from t to the idle list. */
  lemma KeepIdle(cfg: Config, s: State, t: nat, c: nat, pc: Pc)
    requires Inv(cfg, s) && t < |s.threads| && s.threads[t] in {Releasing(c), RelLoop(c)} && pc == Done
    requires s.lock in {None, Some(t)}
    ensures Inv(cfg, s.(conns := s.conns + [c], lock := None).Goto(t, pc))
  {
    hide PcOk, Has, PcsOk, LedgerOk, WaitersOk, Tally;
    var s1 := s.(conns := s.conns + [c]);
    var s2 := s1.(lock := None);
    var s' := s2.Goto(t, pc);
    HasIdle(s, c);
    HasEq(s1, s2);
    HasGoto(s2, t, pc);
    PlainPc(s', t, pc);
    PcsGoto(s, s', t, pc);
    LedgerSame(cfg, s, s');
    WaitersSame(s, s');
  }

  lemma KeepReleaseStart(cfg: Config, s: State, t: nat)
    requires Inv(cfg, s) && t < |s.threads| && s.threads[t].Releasing? && s.lock.None?
    ensures Inv(cfg, ReleaseStart(cfg, s, t, s.threads[t].c))
  {
    hide PcsOk, LedgerOk, WaitersOk, PcOk, Has, Tally;
    var c := s.threads[t].c;
    if cfg.wait == 0 {
      KeepIdle(cfg, s, t, c, Done);
      assert s.(conns := s.conns + [c], lock := None) == s.(conns := s.conns + [c]);
    } else {
      PlainPc(s.(lock := Some(t)).Goto(t, RelLoop(c)), t, RelLoop(c));
      KeepLock(cfg, s, t, Some(t), RelLoop(c));
    }
  }

  lemma KeepReleaseLoop(cfg: Config, s: State, t: nat)
    requires Inv(cfg, s) && t < |s.threads| && s.threads[t].RelLoop?
    ensures Inv(cfg, ReleaseLoop(s, t, s.threads[t].c))
  {
    hide PcsOk, LedgerOk, WaitersOk, Has, Tally;
    var c := s.threads[t].c;
    LockOf(s, t);
    if s.QueueLen() > 0 && s.queue != [] {
      FrontOk(s);
      KeepPop(cfg, s, t, RelPopped(c, s.queue[0]));
    } else {
      KeepIdle(cfg, s, t, c, Done);
    }
  }

  lemma KeepReleaseTest(cfg: Config, s: State, t: nat)
    requires Inv(cfg, s) && t < |s.threads| && s.threads[t].RelPopped? && s.threads[t].w < |s.waiters|
    ensures var w := s.threads[t].w;
            Inv(cfg, s.Goto(t, if s.waiters[w].Waiting() then RelTry(s.threads[t].c, w) else RelDrop(s.threads[t].c, w)))
  {
    hide PcsOk, LedgerOk, WaitersOk, Has, Tally;
    var c, w := s.threads[t].c, s.threads[t].w;
    OwnedWaiter(s, t);
    KeepGoto(cfg, s, t, if s.waiters[w].Waiting() then RelTry(c, w) else RelDrop(c, w));
  }

  lemma KeepReleaseTry(cfg: Config, s: State, t: nat)
    requires Inv(cfg, s) && t < |s.threads| && s.threads[t].RelTry? && s.threads[t].w < |s.waiters|
    ensures Inv(cfg, ReleaseTry(s, t, s.threads[t].c, s.threads[t].w))
  {
    hide PcsOk, LedgerOk, WaitersOk, Has, Tally;
    var c, w := s.threads[t].c, s.threads[t].w;
    OwnedWaiter(s, t);
    if s.waiters[w].Settled() {
      KeepGoto(cfg, s, t, RelDrop(c, w));
    } else {
      KeepDeliver(cfg, s, t, w, Some(c), Done);
    }
  }

  /** The threads that are about to deliver to w, and where a successful delivery leads. */
  ghost predicate Delivering(was: Pc, w: nat, c: Option<nat>, pc: Pc)
  {
    if c.Some? then was in {RelTry(c.value, w), DialGot(c.value, w)} && pc == Done
    else was == DialErr(w) && pc == DecStart(None, [])
  }

  lemma DeliveringHas(was: Pc, w: nat, c: Option<nat>, pc: Pc)
    requires Delivering(was, w, c, pc)
    ensures forall a :: PcHas(was, a) == PcHas(pc, a) + TokHas(w, a) + if c.Some? then ConnHas(c.value, a) else 0
  {
    hide TodoHas;
    forall a { NothingToClose(a); }
  }

  /** tryDeliver of a connection or an error to a waiter that is not settled. */
  lemma KeepDeliver(cfg: Config, s: State, t: nat, w: nat, c: Option<nat>, pc: Pc)
    requires Inv(cfg, s) && t < |s.threads| && Delivering(s.threads[t], w, c, pc)
    requires w < |s.waiters| && !s.waiters[w].Settled()
    ensures Inv(cfg, s.(waiters := s.waiters[w := TryDeliver(s.waiters[w], c)],
                        lock := if s.threads[t].RelTry? then None else s.lock).Goto(t, pc))
  {
    hide PcsOk, LedgerOk, WaitersOk, PcOk, Has, Tally, PcHas;
    var y := TryDeliver(s.waiters[w], c);
    var lock := if s.threads[t].RelTry? then None else s.lock;
    OwnedWaiter(s, t);
    DeliveringHas(s.threads[t], w, c, pc);
    HoldsToken(s, t, w);
    PlainPc(s.(waiters := s.waiters[w := y], lock := lock).Goto(t, pc), t, pc);
    assert s.(waiters := s.waiters[w := y], failedWaiters := s.failedWaiters, lock := lock)
        == s.(waiters := s.waiters[w := y], lock := lock);
    KeepWaiter(cfg, s, t, w, y, s.failedWaiters, lock, pc);
  }

  lemma KeepCloseNext(cfg: Config, s: State, t: nat)
    requires Inv(cfg, s) && t < |s.threads| && s.threads[t].Closing?
    ensures Inv(cfg, CloseNext(s, t, s.threads[t].todo))
  {
    hide PcsOk, LedgerOk, WaitersOk, PcOk, Has, Tally, TodoHas;
    var todo := s.threads[t].todo;
    LockOf(s, t);
    var pc := if todo == [] then Done else DecStart(Some(todo[0]), todo[1..]);
    PlainPc(s.Goto(t, pc), t, pc);
    forall a ensures PcHas(pc, a) == PcHas(s.threads[t], a) { TodoNext(todo, a); }
    KeepGoto(cfg, s, t, pc);
  }

  lemma TodoNext(todo: seq<nat>, a: Asset)
    ensures TodoHas(todo, a) == if todo == [] then 0 else ConnHas(todo[0], a) + TodoHas(todo[1..], a)
  {
    if todo != [] {
      hide Tally;
      TallyRemove(todo, 0, ConnHas, a);
      assert todo[..0] + todo[1..] == todo[1..];
    }
  }

  lemma AfterDecHas(sock: Option<nat>, todo: seq<nat>)
    ensures forall a :: PcHas(AfterDec(sock, todo), a) == SockHas(sock, a) + TodoHas(todo, a)
  {
    hide TodoHas;
  }

  /** The slot is given up. */
  lemma KeepDec(cfg: Config, s: State, t: nat, sock: Option<nat>, todo: seq<nat>)
    requires Inv(cfg, s) && t < |s.threads| && s.threads[t] in {DecStart(sock, todo), DecLoop(sock, todo)}
    requires s.lock in {None, Some(t)}
    ensures Inv(cfg, s.(connsCount := s.connsCount - 1, lock := None).Goto(t, AfterDec(sock, todo)))
  {
    hide PcOk, Has, PcsOk, LedgerOk, WaitersOk, Tally, TodoHas, SockHas;
    var pc := AfterDec(sock, todo);
    var s1 := s.(connsCount := s.connsCount - 1, lock := None);
    var s' := s1.Goto(t, pc);
    HasEq(s, s1);
    HasGoto(s1, t, pc);
    AfterDecHas(sock, todo);
    PlainPc(s', t, pc);
    PcsGoto(s, s', t, pc);
    LedgerMove(cfg, s, s', -1, false, None);
    WaitersSame(s, s');
  }

  lemma KeepDecStart(cfg: Config, s: State, t: nat)
    requires Inv(cfg, s) && t < |s.threads| && s.threads[t].DecStart? && s.lock.None?
    ensures Inv(cfg, DecConnsStart(cfg, s, t, s.threads[t].sock, s.threads[t].todo))
  {
    hide PcsOk, LedgerOk, WaitersOk, PcOk, Has, Tally, TodoHas, SockHas;
    var sock, todo := s.threads[t].sock, s.threads[t].todo;
    if cfg.wait == 0 {
      KeepDec(cfg, s, t, sock, todo);
      assert s.(connsCount := s.connsCount - 1, lock := None) == s.(connsCount := s.connsCount - 1);
    } else {
      PlainPc(s.(lock := Some(t)).Goto(t, DecLoop(sock, todo)), t, DecLoop(sock, todo));
      KeepLock(cfg, s, t, Some(t), DecLoop(sock, todo));
    }
  }

  lemma KeepDecLoop(cfg: Config, s: State, t: nat)
    requires Inv(cfg, s) && t < |s.threads| && s.threads[t].DecLoop?
    ensures Inv(cfg, DecConnsLoop(s, t, s.threads[t].sock, s.threads[t].todo))
  {
    hide PcsOk, LedgerOk, WaitersOk, Has, Tally, TodoHas, SockHas;
    var sock, todo := s.threads[t].sock, s.threads[t].todo;
    LockOf(s, t);
    if s.QueueLen() > 0 && s.queue != [] {
      FrontOk(s);
      KeepPop(cfg, s, t, DecPopped(sock, todo, s.queue[0]));
    } else {
      KeepDec(cfg, s, t, sock, todo);
    }
  }

  lemma KeepDecTest(cfg: Config, s: State, t: nat)
    requires Inv(cfg, s) && t < |s.threads| && s.threads[t].DecPopped? && s.threads[t].w < |s.waiters|
    ensures Inv(cfg, DecConnsTest(s, t, s.threads[t].sock, s.threads[t].todo, s.threads[t].w))
  {
    hide PcsOk, LedgerOk, WaitersOk, Has, Tally, TodoHas, SockHas;
    var sock, todo, w := s.threads[t].sock, s.threads[t].todo, s.threads[t].w;
    OwnedWaiter(s, t);
    if s.waiters[w].Waiting() {
      KeepSpawnDial(cfg, s, t, sock, todo, w);
    } else {
      KeepGoto(cfg, s, t, DecDrop(sock, todo, w));
    }
  }

  /** The freed slot and the right to answer w go to a new goroutine. */
  lemma KeepSpawnDial(cfg: Config, s: State, t: nat, sock: Option<nat>, todo: seq<nat>, w: nat)
    requires Inv(cfg, s) && t < |s.threads| && s.threads[t] == DecPopped(sock, todo, w) && w < |s.waiters|
    requires s.lock == Some(t)
    ensures Inv(cfg, s.(threads := s.threads[t := AfterDec(sock, todo)] + [DialFor(w)], lock := None))
  {
    hide PcsOk, LedgerOk, WaitersOk, PcOk, Has, Tally, TodoHas, SockHas;
    var pc := AfterDec(sock, todo);
    var s1 := s.(lock := None);
    var s2 := s1.Goto(t, pc);
    var s' := s2.(threads := s2.threads + [DialFor(w)]);
    HasEq(s, s1);
    HasGoto(s1, t, pc);
    HasSpawn(s2, DialFor(w));
    AfterDecHas(sock, todo);
    PlainPc(s', t, pc);
    DialPc(s', |s.threads|, w);
    assert RelyAll(t, s, s');
    PcsKeep(s, s', t);
    LedgerSame(cfg, s, s');
    WaitersSame(s, s');
  }

  lemma DialPc(s: State, u: nat, w: nat)
    requires w < |s.waiters| && s.lock.None?
    ensures PcOk(s, u, DialFor(w))
  {
  }

  lemma KeepCloseSocket(cfg: Config, s: State, t: nat)
    requires Inv(cfg, s) && t < |s.threads| && s.threads[t].CloseSock?
    ensures Inv(cfg, CloseSocket(s, t, s.threads[t].c, s.threads[t].todo))
  {
    hide PcsOk, LedgerOk, WaitersOk, PcOk, Has, Tally, TodoHas;
    var c, pc := s.threads[t].c, Closing(s.threads[t].todo);
    var s1 := s.(closed := s.closed + multiset{c});
    var s' := s1.Goto(t, pc);
    LockOf(s, t);
    HasEq(s, s1);
    HasGoto(s1, t, pc);
    PlainPc(s', t, pc);
    PcsGoto(s, s', t, pc);
    LedgerMove(cfg, s, s', 0, false, Some(c));
    WaitersSame(s, s');
  }

  lemma KeepDialFor(cfg: Config, s: State, t: nat, ok: bool)
    requires Inv(cfg, s) && t < |s.threads| && s.threads[t].DialFor?
    ensures Inv(cfg, DialForDone(s, t, s.threads[t].w, ok))
  {
    hide PcsOk, LedgerOk, WaitersOk, Has, Tally;
    OwnedWaiter(s, t);
    if ok {
      KeepBorn(cfg, s, t, DialGot(s.nextConn, s.threads[t].w));
    } else {
      KeepGoto(cfg, s, t, DialErr(s.threads[t].w));
    }
  }

  lemma KeepDialDeliver(cfg: Config, s: State, t: nat)
    requires Inv(cfg, s) && t < |s.threads| && s.threads[t].DialGot? && s.threads[t].w < |s.waiters|
    ensures Inv(cfg, DialDeliver(s, t, s.threads[t].c, s.threads[t].w))
  {
    hide PcsOk, LedgerOk, WaitersOk, PcOk, Has, Tally, PcHas;
    var c, w := s.threads[t].c, s.threads[t].w;
    if s.waiters[w].Settled() {
      KeepUndelivered(cfg, s, t, Releasing(c));
    } else {
      KeepDeliver(cfg, s, t, w, Some(c), Done);
    }
  }

  /** The waiter was settled before the dial ended: the right to answer it lapses. */
  lemma KeepUndelivered(cfg: Config, s: State, t: nat, pc: Pc)
    requires Inv(cfg, s) && t < |s.threads|
    requires var was := s.threads[t];
             (was.DialGot? && pc == Releasing(was.c)) || (was.DialErr? && pc == DecStart(None, []))
    ensures Inv(cfg, s.Goto(t, pc))
  {
    hide PcsOk, LedgerOk, WaitersOk, PcOk, Has, Tally, TodoHas;
    var s' := s.Goto(t, pc);
    LockOf(s, t);
    forall a { NothingToClose(a); }
    HasGoto(s, t, pc);
    PlainPc(s', t, pc);
    PcsGoto(s, s', t, pc);
    LedgerSame(cfg, s, s');
    WaitersSame(s, s');
  }

  lemma KeepDialReport(cfg: Config, s: State, t: nat)
    requires Inv(cfg, s) && t < |s.threads| && s.threads[t].DialErr? && s.threads[t].w < |s.waiters|
    ensures Inv(cfg, DialReport(s, t, s.threads[t].w))
  {
    hide PcsOk, LedgerOk, WaitersOk, PcOk, Has, Tally, PcHas;
    var w := s.threads[t].w;
    if s.waiters[w].Settled() {
      KeepUndelivered(cfg, s, t, DecStart(None, []));
      assert s.waiters[w := s.waiters[w]] == s.waiters;
    } else {
      KeepDeliver(cfg, s, t, w, None, DecStart(None, []));
    }
  }

  lemma KeepTakePrefix(cfg: Config, s: State, t: nat, k: nat)
    requires Inv(cfg, s) && t < |s.threads| && (s.threads[t].AtCloseIdle? || s.threads[t].AtClean?) && s.lock.None?
    requires k <= |s.conns|
    ensures Inv(cfg, TakeIdle(s, t, k))
  {
    hide PcsOk, LedgerOk, WaitersOk, PcOk, Has, Tally, TodoHas;
    var pc := Closing(s.conns[..k]);
    var s1 := s.(conns := s.conns[k..]);
    var s' := s1.Goto(t, pc);
    HasTake(s, k);
    HasGoto(s1, t, pc);
    PlainPc(s', t, pc);
    PcsGoto(s, s', t, pc);
    LedgerSame(cfg, s, s');
    WaitersSame(s, s');
  }

  lemma KeepHolding(cfg: Config, s: State, t: nat, release: bool)
    requires Inv(cfg, s) && t < |s.threads| && s.threads[t].Holding?
    ensures Inv(cfg, s.Goto(t, if release then Releasing(s.threads[t].c) else Closing([s.threads[t].c])))
  {
    hide PcsOk, LedgerOk, WaitersOk, PcOk, Has, Tally, TodoHas;
    var c := s.threads[t].c;
    var pc := if release then Releasing(c) else Closing([c]);
    LockOf(s, t);
    PlainPc(s.Goto(t, pc), t, pc);
    forall a ensures PcHas(pc, a) == PcHas(s.threads[t], a) {
      TodoNext([c], a);
      assert [c][1..] == [];
      TodoNext([], a);
    }
    KeepGoto(cfg, s, t, pc);
  }

  lemma KeepSpawn(cfg: Config, s: State, pc: Pc)
    requires Inv(cfg, s) && (pc.AtStart? || pc.AtCloseIdle? || pc.AtClean?)
    ensures Inv(cfg, s.(threads := s.threads + [pc]))
  {
    hide LedgerOk, WaitersOk, PcOk, Has, Tally;
    var s' := s.(threads := s.threads + [pc]);
    HasSpawn(s, pc);
    forall u | 0 <= u < |s'.threads| ensures PcOk(s', u, s'.threads[u]) {
      if u < |s.threads| {
        PcOkSame(s, s', u, s.threads[u]);
      } else {
        PlainPc(s', u, pc);
      }
    }
    LedgerSame(cfg, s, s');
    WaitersSame(s, s');
  }

  lemma RangeOf(cfg: Config, s: State)
    requires Inv(cfg, s)
    ensures InRange(s)
  {
    hide Has, OwnerOk;
    forall t | 0 <= t < |s.threads| ensures PcInRange(s.threads[t], |s.waiters|) {
      assert PcOk(s, t, s.threads[t]);
    }
  }

  lemma KeepStep(cfg: Config, s: State, t: nat, alt: bool, k: nat)
    requires Inv(cfg, s) && InRange(s) && t < |s.threads|
    ensures Inv(cfg, StepOf(cfg, s, t, alt, k))
  {
    hide Inv, Acquire, DialDone, ClearFront, CountOff, Select, Cancel, ReleaseStart, ReleaseLoop, ReleaseTry, CloseNext,
         DecConnsStart, DecConnsLoop, DecConnsTest, CloseSocket, DialForDone, DialDeliver, DialReport, TakeIdle;
    var pc := s.threads[t];
    assert PcInRange(pc, |s.waiters|);
    if !Blocked(s, pc) {
      match pc
      case AtStart => KeepAcquire(cfg, s, t);
      case Dialing => KeepDialDone(cfg, s, t, alt);
      case Enqueue(w) => KeepEnqueue(cfg, s, t);
      case Clearing(w) => KeepClearFront(cfg, s, t);
      case ClearDrop(w, f) => KeepCountOff(cfg, s, t, f, Clearing(w));
      case Waiting(w) => KeepSelect(cfg, s, t, alt);
      case Cancelling(w) => KeepCancel(cfg, s, t);
      case Holding(c) => KeepHolding(cfg, s, t, alt);
      case Releasing(c) => KeepReleaseStart(cfg, s, t);
      case RelLoop(c) => KeepReleaseLoop(cfg, s, t);
      case RelPopped(c, w) => KeepReleaseTest(cfg, s, t);
      case RelTry(c, w) => KeepReleaseTry(cfg, s, t);
      case RelDrop(c, w) => KeepCountOff(cfg, s, t, w, RelLoop(c));
      case Closing(todo) => KeepCloseNext(cfg, s, t);
      case DecStart(sock, todo) => KeepDecStart(cfg, s, t);
      case DecLoop(sock, todo) => KeepDecLoop(cfg, s, t);
      case DecPopped(sock, todo, w) => KeepDecTest(cfg, s, t);
      case DecDrop(sock, todo, w) => KeepCountOff(cfg, s, t, w, DecLoop(sock, todo));
      case CloseSock(c, todo) => KeepCloseSocket(cfg, s, t);
      case DialFor(w) => KeepDialFor(cfg, s, t, alt);
      case DialGot(c, w) => KeepDialDeliver(cfg, s, t);
      case DialErr(w) => KeepDialReport(cfg, s, t);
      case AtCloseIdle => KeepTakePrefix(cfg, s, t, |s.conns|);
      case AtClean => KeepTakePrefix(cfg, s, t, if k <= |s.conns| then k else |s.conns|);
      case Done =>
    }
  }

  lemma KeepApply(cfg: Config, s: State, l: Label)
    requires Inv(cfg, s) && InRange(s)
    ensures Inv(cfg, Apply(cfg, s, l))
  {
    hide Inv, StepOf, InRange;
    match l
    case Start => KeepSpawn(cfg, s, AtStart);
    case StartCloseIdle => KeepSpawn(cfg, s, AtCloseIdle);
    case StartClean => KeepSpawn(cfg, s, AtClean);
    case Run(t, alt, k) => if t < |s.threads| { KeepStep(cfg, s, t, alt, k); }
  }

  // ---- runs ----

  /** The state after a sequence of steps. InRange holds in every run (EveryRun), so the test never stops one. */
  ghost function RunOf(cfg: Config, ls: seq<Label>): State
  {
    if ls == [] then Init
    else
      var s := RunOf(cfg, ls[..|ls| - 1]);
      if InRange(s) then Apply(cfg, s, ls[|ls| - 1]) else s
  }

  lemma InitOk(cfg: Config)
    ensures Inv(cfg, Init)
  {
  }

  lemma {:induction false} EveryRun(cfg: Config, ls: seq<Label>)
    ensures Inv(cfg, RunOf(cfg, ls)) && InRange(RunOf(cfg, ls))
  {
    if ls == [] {
      InitOk(cfg);
    } else {
      hide Inv, Apply, InRange;
      var s := RunOf(cfg, ls[..|ls| - 1]);
      EveryRun(cfg, ls[..|ls| - 1]);
      KeepApply(cfg, s, ls[|ls| - 1]);
    }
    hide Inv, Apply, InRange, RunOf;
    RangeOf(cfg, RunOf(cfg, ls));
  }
}
