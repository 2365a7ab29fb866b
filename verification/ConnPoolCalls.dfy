/** How each call of the connection pool ends, in every run: when acquireConn dials, waits or refuses, where a released
    connection goes, what closing closes, and that nobody is stuck. */
module ConnPoolCalls {
  import opened Ledger
  import opened ConnPool
  import opened ConnPoolProofs
  import opened ConnPoolTheorems

  // ---- acquireConn ----

  /** With nothing idle acquireConn dials exactly if a slot is free, else it waits exactly if waiting is allowed, else it
      is refused. Only a dial changes connsCount. */
  lemma AcquireDecides(cfg: Config, ls: seq<Label>, u: nat, alt: bool, k: nat)
    requires var s := RunOf(cfg, ls); u < |s.threads| && s.threads[u] == AtStart && s.lock.None? && s.conns == []
    ensures InRange(RunOf(cfg, ls))
    ensures var s := RunOf(cfg, ls);
            var s' := StepOf(cfg, s, u, alt, k);
            && |s'.threads| == |s.threads| && s'.conns == [] && s'.queue == s.queue && s'.lock.None?
            && (s'.threads[u] == Dialing <==> cfg.maxConns < 0 || s.connsCount < cfg.maxConns)
            && (s'.threads[u] == Done <==> s.connsCount == cfg.maxConns && cfg.wait == 0)
            && (s'.threads[u] == Enqueue(|s.waiters|) <==> s.connsCount == cfg.maxConns && cfg.wait != 0)
            && s'.connsCount == s.connsCount + (if s'.threads[u] == Dialing then 1 else 0)
            && |s'.waiters| == |s.waiters| + (if s'.threads[u].Enqueue? then 1 else 0)
            && (s'.threads[u].Enqueue? ==> !s'.waiters[|s.waiters|].Settled() && s'.waiters[|s.waiters|].owner == u)
  {
    hide RunOf, Inv, InRange, Count;
    EveryRun(cfg, ls);
    ConnsCountConserved(cfg, ls);
  }

  /** A goroutine's own dial gives it the new connection, which takes the slot over, or the slot is given up. */
  lemma DialDecides(cfg: Config, ls: seq<Label>, u: nat, alt: bool, k: nat)
    requires var s := RunOf(cfg, ls); u < |s.threads| && s.threads[u] == Dialing
    ensures InRange(RunOf(cfg, ls))
    ensures var s := RunOf(cfg, ls);
            var s' := StepOf(cfg, s, u, alt, k);
            && |s'.threads| == |s.threads| && s'.connsCount == s.connsCount
            && s'.threads[u] == (if alt then Holding(s.nextConn) else DecStart(None, []))
            && s'.nextConn == s.nextConn + (if alt then 1 else 0)
  {
    hide RunOf, Inv, InRange;
    EveryRun(cfg, ls);
  }

  /** From every state of every run in which the lock is free, nothing is idle and a slot is free, a new goroutine whose
      dial succeeds has a connection with its second step. A client that was just made is such a state. */
  lemma FreeSlotIsUsed(cfg: Config, ls: seq<Label>, k: nat)
    requires var s := RunOf(cfg, ls); s.lock.None? && s.conns == [] && (cfg.maxConns < 0 || s.connsCount < cfg.maxConns)
    ensures var s := RunOf(cfg, ls);
            var u := |s.threads|;
            var s' := RunOf(cfg, ls + [Start] + [Run(u, true, k)] + [Run(u, true, k)]);
            && |s'.threads| == u + 1 && s'.threads[u] == Holding(s.nextConn) && s'.connsCount == s.connsCount + 1
  {
    hide RunOf, StepOf, Inv, InRange;
    var u := |RunOf(cfg, ls).threads|;
    NextStep(cfg, ls, Start);
    NextStep(cfg, ls + [Start], Run(u, true, k));
    AcquireDecides(cfg, ls + [Start], u, true, k);
    NextStep(cfg, ls + [Start] + [Run(u, true, k)], Run(u, true, k));
    DialDecides(cfg, ls + [Start] + [Run(u, true, k)], u, true, k);
    DialKeepsNumber(cfg, ls + [Start], u, true, k);
  }

  lemma DialKeepsNumber(cfg: Config, ls: seq<Label>, u: nat, alt: bool, k: nat)
    requires var s := RunOf(cfg, ls); u < |s.threads| && s.threads[u] == AtStart
    ensures InRange(RunOf(cfg, ls)) && StepOf(cfg, RunOf(cfg, ls), u, alt, k).nextConn == RunOf(cfg, ls).nextConn
  {
    hide RunOf, Inv, InRange;
    EveryRun(cfg, ls);
  }

  lemma NextStep(cfg: Config, ls: seq<Label>, l: Label)
    ensures InRange(RunOf(cfg, ls)) && RunOf(cfg, ls + [l]) == Apply(cfg, RunOf(cfg, ls), l)
  {
    hide Apply, Inv, InRange;
    EveryRun(cfg, ls);
    assert (ls + [l])[..|ls|] == ls;
  }

  // ---- the queue ----

  /** queueForIdle begins as soon as the lock is free, and takes it. */
  lemma QueueingBegins(cfg: Config, ls: seq<Label>, t: nat, alt: bool, k: nat, w: nat)
    requires var s := RunOf(cfg, ls); t < |s.threads| && s.threads[t] == Enqueue(w) && s.lock.None?
    ensures InRange(RunOf(cfg, ls))
    ensures var s := RunOf(cfg, ls);
            StepOf(cfg, s, t, alt, k) == s.(lock := Some(t), threads := s.threads[t := Clearing(w)])
  {
    hide RunOf, Inv, InRange;
    EveryRun(cfg, ls);
  }

  /** queueForIdle drops settled waiters from the front, and then puts w at the end and lets the lock go. */
  lemma QueueingEnds(cfg: Config, ls: seq<Label>, t: nat, alt: bool, k: nat, w: nat)
    requires var s := RunOf(cfg, ls); t < |s.threads| && s.threads[t] == Clearing(w)
    ensures InRange(RunOf(cfg, ls))
    ensures var s := RunOf(cfg, ls);
            var s' := StepOf(cfg, s, t, alt, k);
            && t < |s'.threads|
            && (s.queue != [] ==> s.queue[0] < |s.waiters|)
            && (if s.queue != [] && s.waiters[s.queue[0]].Settled() then
                  s'.queue == s.queue[1..] && s'.threads[t] == ClearDrop(w, s.queue[0]) && s'.lock == s.lock
                else s'.queue == s.queue + [w] && s'.threads[t] == Waiting(w) && s'.lock.None?)
  {
    hide RunOf, LedgerOk, PcsOk, InRange, Has;
    EveryRun(cfg, ls);
    var s := RunOf(cfg, ls);
    PcRange(s, t);
    StepRange(s);
    if s.queue != [] { assert WaiterOk(s.waiters[s.queue[0]]); }
  }

  /** The step of a run with which w was last put into the queue, or -1. */
  ghost function QueuedAt(cfg: Config, ls: seq<Label>, w: nat): int
  {
    if ls == [] then -1
    else
      var was, now := RunOf(cfg, ls[..|ls| - 1]).queue, RunOf(cfg, ls).queue;
      if |now| > |was| && now[|now| - 1] == w then |ls| - 1 else QueuedAt(cfg, ls[..|ls| - 1], w)
  }

  ghost function Queued(cfg: Config, ls: seq<Label>): nat -> int
  {
    (w: nat) => QueuedAt(cfg, ls, w)
  }

  /** A step takes the first waiter off the queue, or puts one at its end. */
  lemma QueueStep(cfg: Config, s: State, t: nat, alt: bool, k: nat) returns (lo: nat)
    requires InRange(s) && t < |s.threads|
    ensures lo <= |s.queue|
    ensures var queue := StepOf(cfg, s, t, alt, k).queue;
            queue == s.queue[lo..] || (|queue| == |s.queue| + 1 && queue[..|s.queue|] == s.queue)
  {
    hide InRange;
    PcRange(s, t);
    lo := 0;
    match s.threads[t]
    case Clearing(w) =>
      StepRange(s);
      if s.queue != [] && !s.waiters[s.queue[0]].Waiting() { lo := 1; }
      assert (s.queue + [w])[..|s.queue|] == s.queue;
    case RelLoop(_) => if s.QueueLen() > 0 && s.queue != [] { lo := 1; }
    case DecLoop(_, _) => if s.QueueLen() > 0 && s.queue != [] { lo := 1; }
    case _ => assert StepOf(cfg, s, t, alt, k).queue == s.queue;
  }

  /** In every run the waiters are queued in the order in which they began to wait, so the first is the oldest. */
  lemma {:induction false} WaitersInOrder(cfg: Config, ls: seq<Label>)
    ensures Ascending(RunOf(cfg, ls).queue, Queued(cfg, ls), |ls|)
  {
    if ls != [] {
      hide RunOf, StepOf, Inv, InRange, Ascending, Queued;
      var front, l := ls[..|ls| - 1], ls[|ls| - 1];
      var s := RunOf(cfg, front);
      WaitersInOrder(cfg, front);
      LastStep(cfg, ls);
      var lo := 0;
      if l.Run? && l.t < |s.threads| {
        lo := QueueStep(cfg, s, l.t, l.alt, l.k);
      }
      QueueOrder(cfg, ls, lo);
    }
  }

  lemma QueueOrder(cfg: Config, ls: seq<Label>, lo: nat)
    requires ls != [] && Ascending(RunOf(cfg, ls[..|ls| - 1]).queue, Queued(cfg, ls[..|ls| - 1]), |ls| - 1)
    requires var was, now := RunOf(cfg, ls[..|ls| - 1]).queue, RunOf(cfg, ls).queue;
             && lo <= |was|
             && (now == was[lo..] || (|now| == |was| + 1 && now[..|was|] == was))
    ensures Ascending(RunOf(cfg, ls).queue, Queued(cfg, ls), |ls|)
  {
    hide RunOf, Ascending, LedgerOk, WaitersOk, PcsOk, InRange;
    var front := ls[..|ls| - 1];
    var was, now := RunOf(cfg, front).queue, RunOf(cfg, ls).queue;
    var at, at' := Queued(cfg, front), Queued(cfg, ls);
    if |now| == |was| + 1 {
      var w := now[|was|];
      EveryRun(cfg, ls);
      QueueDistinct(cfg, RunOf(cfg, ls));
      assert forall i :: 0 <= i < |was| ==> was[i] == now[i] != w;
      AscendingPush(was, w, at, at', |front|);
      assert now == was + [w];
    } else {
      AscendingSlice(was, at, at', |front|, lo, |was|);
      assert was[lo..|was|] == was[lo..];
    }
  }

  // ---- the end of waiting ----

  /** A caller that waits goes on exactly when its waiter is settled or, with a time-out, its timer fires. A connection
      that was delivered is the one it gets. */
  lemma WaitDecides(cfg: Config, ls: seq<Label>, u: nat, timer: bool, k: nat)
    requires var s := RunOf(cfg, ls); u < |s.threads| && s.threads[u].Waiting?
    ensures InRange(RunOf(cfg, ls))
    ensures var s := RunOf(cfg, ls);
            var w := s.threads[u].w;
            && w < |s.waiters|
            && var x, s' := s.waiters[w], StepOf(cfg, s, u, timer, k);
            && |s'.threads| == |s.threads| && |s'.waiters| == |s.waiters|
            && (s'.threads[u] == s.threads[u] <==> if timer then cfg.wait <= 0 else !x.Settled())
            && (!timer && x.conn.Some? ==> s'.threads[u] == Holding(x.conn.value))
            && (!timer && x.failed ==> s'.threads[u] == Cancelling(w))
            && (timer && cfg.wait > 0 ==> s'.threads[u] == Cancelling(w) && s'.failedWaiters == s.failedWaiters + 1)
  {
    hide RunOf, LedgerOk, PcsOk, InRange, Has;
    EveryRun(cfg, ls);
    var s := RunOf(cfg, ls);
    PcRange(s, u);
    assert WaiterOk(s.waiters[s.threads[u].w]);
  }

  /** A waiter that was given up takes no connection any more; one that had been delivered to it is released again. */
  lemma CancelDecides(cfg: Config, ls: seq<Label>, u: nat, alt: bool, k: nat)
    requires var s := RunOf(cfg, ls); u < |s.threads| && s.threads[u].Cancelling?
    ensures InRange(RunOf(cfg, ls))
    ensures var s := RunOf(cfg, ls);
            var w := s.threads[u].w;
            && w < |s.waiters|
            && var x, s' := s.waiters[w], StepOf(cfg, s, u, alt, k);
            && |s'.threads| == |s.threads| && |s'.waiters| == |s.waiters|
            && s'.waiters[w].failed && s'.waiters[w].conn.None?
            && s'.threads[u] == (if x.conn.Some? then Releasing(x.conn.value) else Done)
  {
    hide RunOf, Inv, InRange;
    EveryRun(cfg, ls);
    PcRange(RunOf(cfg, ls), u);
  }

  /** In every continuation a waiter that was given up stays without a connection. */
  lemma {:induction false} GivenUpStays(cfg: Config, ls: seq<Label>, more: seq<Label>, w: nat)
    requires w < |RunOf(cfg, ls).waiters| && RunOf(cfg, ls).waiters[w].failed
    ensures var s := RunOf(cfg, ls + more); w < |s.waiters| && s.waiters[w].failed && s.waiters[w].conn.None?
    decreases |more|
  {
    hide RunOf, Apply, Inv, InRange;
    if more == [] {
      assert ls + more == ls;
    } else {
      var front, l := more[..|more| - 1], more[|more| - 1];
      GivenUpStays(cfg, ls, front, w);
      OneMore(cfg, ls, more);
      FailedStays(cfg, RunOf(cfg, ls + front), l, w);
    }
    SettledOnce(cfg, ls + more, w);
  }

  lemma FailedStays(cfg: Config, s: State, l: Label, w: nat)
    requires InRange(s) && w < |s.waiters| && s.waiters[w].failed
    ensures w < |Apply(cfg, s, l).waiters| && Apply(cfg, s, l).waiters[w].failed
  {
    hide StepOf, InRange;
    if l.Run? && l.t < |s.threads| {
      AnswersStay(cfg, s, l.t, l.alt, l.k, w);
    }
  }

  // ---- releaseConn ----

  /** The thread is giving connection c back. */
  predicate Giving(pc: Pc, c: nat)
  {
    pc == Releasing(c) || pc == RelLoop(c)
    || ((pc.RelPopped? || pc.RelTry? || pc.RelDrop?) && pc.c == c)
  }

  /** A thread that gives c back goes on until c is parked at the end of the idle list or delivered to a waiter that was
      waiting; it parks c only when no queued waiter is left to be answered, and never closes it. */
  lemma ReleaseEnds(cfg: Config, ls: seq<Label>, t: nat, alt: bool, k: nat, c: nat)
    requires var s := RunOf(cfg, ls); t < |s.threads| && Giving(s.threads[t], c)
    ensures InRange(RunOf(cfg, ls))
    ensures var s := RunOf(cfg, ls);
            var s' := StepOf(cfg, s, t, alt, k);
            && |s'.threads| == |s.threads| && s'.connsCount == s.connsCount && s'.closed == s.closed
            && (s'.threads[t] != Done ==> Giving(s'.threads[t], c) && s'.conns == s.conns)
            && (s'.threads[t] == Done ==>
                  || (s'.conns == s.conns + [c] && s'.waiters == s.waiters && (cfg.wait == 0 || s.QueueLen() <= 0 || s.queue == []))
                  || (s'.conns == s.conns && s.threads[t].RelTry? && s.threads[t].w < |s.waiters|
                      && !s.waiters[s.threads[t].w].Settled() && |s'.waiters| == |s.waiters|
                      && s'.waiters[s.threads[t].w].conn == Some(c)))
            && (s.threads[t] == RelLoop(c) ==> (s'.threads[t] == Done <==> s.QueueLen() <= 0 || s.queue == []))
  {
    hide RunOf, Inv, InRange;
    EveryRun(cfg, ls);
    PcRange(RunOf(cfg, ls), t);
  }

  /** A release that nobody waits for parks its connection, with at most two steps. */
  lemma ReleaseParks(cfg: Config, ls: seq<Label>, t: nat, c: nat, k: nat)
    requires var s := RunOf(cfg, ls);
             t < |s.threads| && s.threads[t] == Releasing(c) && s.lock.None? && s.QueueLen() <= 0
    ensures var s := RunOf(cfg, ls);
            var steps := if cfg.wait == 0 then [Run(t, true, k)] else [Run(t, true, k)] + [Run(t, true, k)];
            var s' := RunOf(cfg, ls + steps);
            && |s'.threads| == |s.threads| && s'.threads[t] == Done && s'.lock.None?
            && s'.conns == s.conns + [c] && s'.connsCount == s.connsCount && s'.waiters == s.waiters
  {
    hide RunOf, Inv, InRange;
    var r := Run(t, true, k);
    NextStep(cfg, ls, r);
    if cfg.wait != 0 {
      NextStep(cfg, ls + [r], r);
      assert ls + [r] + [r] == ls + ([r] + [r]);
    }
  }

  /** A dial for a waiter has its connection, or reports its failure to the waiter and gives the slot up. */
  lemma DialForDecides(cfg: Config, ls: seq<Label>, t: nat, ok: bool, k: nat, w: nat)
    requires var s := RunOf(cfg, ls); t < |s.threads| && (s.threads[t] == DialFor(w) || s.threads[t] == DialErr(w))
    ensures InRange(RunOf(cfg, ls)) && w < |RunOf(cfg, ls).waiters|
    ensures var s := RunOf(cfg, ls);
            var s' := StepOf(cfg, s, t, ok, k);
            && |s'.threads| == |s.threads| && |s'.waiters| == |s.waiters| && s'.connsCount == s.connsCount
            && (s.threads[t] == DialFor(w) && ok ==> s'.threads[t] == DialGot(s.nextConn, w) && s'.nextConn == s.nextConn + 1)
            && (s.threads[t] == DialFor(w) && !ok ==> s'.threads[t] == DialErr(w) && s'.nextConn == s.nextConn)
            && (s.threads[t] == DialFor(w) ==> s'.waiters == s.waiters)
            && (s.threads[t] == DialErr(w) ==>
                  && s'.threads[t] == DecStart(None, [])
                  && (if s.waiters[w].Settled() then s'.waiters == s.waiters
                      else s'.waiters[w].failed && s'.waiters[w].closes == s.waiters[w].closes + 1))
  {
    hide RunOf, Inv, InRange;
    EveryRun(cfg, ls);
    PcRange(RunOf(cfg, ls), t);
  }

  /** A connection dialed for a waiter is delivered to it or, if it was settled meanwhile, released. */
  lemma DialForEnds(cfg: Config, ls: seq<Label>, t: nat, alt: bool, k: nat, c: nat, w: nat)
    requires var s := RunOf(cfg, ls); t < |s.threads| && s.threads[t] == DialGot(c, w)
    ensures InRange(RunOf(cfg, ls)) && w < |RunOf(cfg, ls).waiters|
    ensures var s := RunOf(cfg, ls);
            var s' := StepOf(cfg, s, t, alt, k);
            && |s'.threads| == |s.threads| && |s'.waiters| == |s.waiters|
            && (if s.waiters[w].Settled() then s'.threads[t] == Releasing(c) && s'.waiters == s.waiters
                else s'.threads[t] == Done && s'.waiters[w].conn == Some(c) && s'.waiters[w].closes == s.waiters[w].closes + 1)
  {
    hide RunOf, Inv, InRange;
    EveryRun(cfg, ls);
    PcRange(RunOf(cfg, ls), t);
  }

  // ---- closing ----

  /** The thread has yet to close c. */
  ghost predicate WillClose(pc: Pc, c: nat)
  {
    match pc
    case Closing(todo) => c in todo
    case DecStart(sock, todo) => sock == Some(c) || c in todo
    case DecLoop(sock, todo) => sock == Some(c) || c in todo
    case DecPopped(sock, todo, _) => sock == Some(c) || c in todo
    case DecDrop(sock, todo, _) => sock == Some(c) || c in todo
    case CloseSock(sock, todo) => sock == c || c in todo
    case _ => false
  }

  lemma CloseStep(cfg: Config, s: State, t: nat, alt: bool, k: nat, c: nat)
    requires InRange(s) && t < |s.threads| && WillClose(s.threads[t], c)
    ensures var s' := StepOf(cfg, s, t, alt, k); t < |s'.threads| && (WillClose(s'.threads[t], c) || c in s'.closed)
  {
    hide InRange;
    PcRange(s, t);
    match s.threads[t]
    case Closing(todo) => assert todo == [todo[0]] + todo[1..];
    case _ =>
  }

  lemma ClosedGrows(cfg: Config, s: State, t: nat, alt: bool, k: nat)
    requires InRange(s) && t < |s.threads|
    ensures s.closed <= StepOf(cfg, s, t, alt, k).closed
  {
    hide InRange;
    PcRange(s, t);
    match s.threads[t]
    case Clearing(_) => StepRange(s);
    case CloseSock(_, _) =>
    case _ => assert StepOf(cfg, s, t, alt, k).closed == s.closed;
  }

  /** In every continuation a connection that a thread has set out to close is closed or still in that thread's hands. */
  lemma {:induction false} ClosingEnds(cfg: Config, ls: seq<Label>, more: seq<Label>, t: nat, c: nat)
    requires t < |RunOf(cfg, ls).threads| && WillClose(RunOf(cfg, ls).threads[t], c)
    ensures var s := RunOf(cfg, ls + more); t < |s.threads| && (WillClose(s.threads[t], c) || c in s.closed)
    decreases |more|
  {
    hide RunOf, StepOf, Inv, InRange, WillClose;
    if more == [] {
      assert ls + more == ls;
    } else {
      var front, l := more[..|more| - 1], more[|more| - 1];
      ClosingEnds(cfg, ls, front, t, c);
      OneMore(cfg, ls, more);
      var s := RunOf(cfg, ls + front);
      if l.Run? && l.t < |s.threads| {
        OthersStay(cfg, s, l.t, l.alt, l.k);
        ClosedGrows(cfg, s, l.t, l.alt, l.k);
        if l.t == t && WillClose(s.threads[t], c) {
          CloseStep(cfg, s, t, l.alt, l.k, c);
        }
      }
    }
  }

  /** CloseIdleConnections takes every idle connection, Clean the first k; when the goroutine is done, in whatever run,
      all of them are closed. */
  lemma IdleAreClosed(cfg: Config, ls: seq<Label>, more: seq<Label>, t: nat, alt: bool, k: nat)
    requires var s := RunOf(cfg, ls);
             t < |s.threads| && s.lock.None? && (s.threads[t] == AtCloseIdle || (s.threads[t] == AtClean && k <= |s.conns|))
    ensures var s, s' := RunOf(cfg, ls), RunOf(cfg, ls + [Run(t, alt, k)]);
            var n := if s.threads[t] == AtCloseIdle then |s.conns| else k;
            && s'.conns == s.conns[n..] && t < |s'.threads| && s'.threads[t] == Closing(s.conns[..n])
            && s'.connsCount == s.connsCount
            && var end := RunOf(cfg, ls + [Run(t, alt, k)] + more);
            t < |end.threads| && (end.threads[t] == Done ==> forall c :: c in s.conns[..n] ==> c in end.closed)
  {
    hide RunOf, Inv, InRange;
    var s := RunOf(cfg, ls);
    NextStep(cfg, ls, Run(t, alt, k));
    var n := if s.threads[t] == AtCloseIdle then |s.conns| else k;
    ThreadStays(cfg, ls + [Run(t, alt, k)], more, t);
    forall c | c in s.conns[..n]
      ensures RunOf(cfg, ls + [Run(t, alt, k)] + more).threads[t] == Done ==> c in RunOf(cfg, ls + [Run(t, alt, k)] + more).closed
    {
      ClosingEnds(cfg, ls + [Run(t, alt, k)], more, t, c);
    }
  }

  lemma {:induction false} ThreadStays(cfg: Config, ls: seq<Label>, more: seq<Label>, t: nat)
    requires t < |RunOf(cfg, ls).threads|
    ensures t < |RunOf(cfg, ls + more).threads|
    decreases |more|
  {
    hide RunOf, StepOf, Inv, InRange;
    if more == [] {
      assert ls + more == ls;
    } else {
      var front, l := more[..|more| - 1], more[|more| - 1];
      ThreadStays(cfg, ls, front, t);
      OneMore(cfg, ls, more);
      var s := RunOf(cfg, ls + front);
      if l.Run? && l.t < |s.threads| {
        OthersStay(cfg, s, l.t, l.alt, l.k);
      }
    }
  }

  /** A caller that is done with its connection releases it or closes it, as it chooses. */
  lemma HolderDecides(cfg: Config, ls: seq<Label>, t: nat, release: bool, k: nat, c: nat)
    requires var s := RunOf(cfg, ls); t < |s.threads| && s.threads[t] == Holding(c)
    ensures InRange(RunOf(cfg, ls))
    ensures var s' := StepOf(cfg, RunOf(cfg, ls), t, release, k);
            t < |s'.threads| && (if release then Giving(s'.threads[t], c) else WillClose(s'.threads[t], c))
  {
    hide RunOf, Inv, InRange;
    EveryRun(cfg, ls);
  }

  // ---- the lock, and progress ----

  /** While a goroutine holds the lock no other one changes what it protects. */
  lemma LockIsExclusive(cfg: Config, ls: seq<Label>, t: nat, u: nat, alt: bool, k: nat)
    requires var s := RunOf(cfg, ls); s.lock == Some(t) && u < |s.threads| && t != u
    ensures InRange(RunOf(cfg, ls))
    ensures var s := RunOf(cfg, ls);
            var s' := StepOf(cfg, s, u, alt, k);
            s'.lock == s.lock && s'.conns == s.conns && s'.connsCount == s.connsCount && s'.queue == s.queue
  {
    hide RunOf, InRange, LedgerOk, WaitersOk;
    EveryRun(cfg, ls);
    var s := RunOf(cfg, ls);
    PcRange(s, u);
    assert PcOk(s, u, s.threads[u]);
    match s.threads[u]
    case Clearing(_) => StepRange(s);
    case _ =>
  }

  /** The step of thread t, with alt, moves it on. */
  ghost predicate Moves(cfg: Config, s: State, t: nat, alt: bool, k: nat)
    requires InRange(s) && t < |s.threads|
  {
    var s' := StepOf(cfg, s, t, alt, k);
    t < |s'.threads| && s'.threads[t] != s.threads[t]
  }

  /** In every run, every goroutine that is neither done nor waiting for a waiter that is not settled can move on, or
      another one has the lock that it needs; and whoever has the lock can move on. */
  lemma NobodyIsStuck(cfg: Config, ls: seq<Label>, t: nat, alt: bool, k: nat)
    requires t < |RunOf(cfg, ls).threads|
    ensures InRange(RunOf(cfg, ls))
    ensures var s := RunOf(cfg, ls);
            var pc := s.threads[t];
            && (pc.Waiting? ==> pc.w < |s.waiters|)
            && (pc == Done
                || (pc.Waiting? && (alt || !s.waiters[pc.w].Settled()))
                || (s.lock.Some? && s.lock != Some(t) && s.lock.value < |s.threads| && Moves(cfg, s, s.lock.value, alt, k))
                || Moves(cfg, s, t, alt, k))
  {
    hide RunOf, InRange, LedgerOk, Moves;
    EveryRun(cfg, ls);
    var s := RunOf(cfg, ls);
    var pc := s.threads[t];
    PcRange(s, t);
    assert PcOk(s, t, pc);
    if s.lock.Some? && s.lock != Some(t) {
      assert PcOk(s, s.lock.value, s.threads[s.lock.value]);
      LockedMoves(cfg, s, s.lock.value, alt, k);
    } else if pc.Locked() {
      LockedMoves(cfg, s, t, alt, k);
    } else if pc != Done && !(pc.Waiting? && (alt || !s.waiters[pc.w].Settled())) {
      if pc.Waiting? { assert WaiterOk(s.waiters[pc.w]); }
      FreeMoves(cfg, s, t, alt, k);
    }
  }

  lemma LockedMoves(cfg: Config, s: State, t: nat, alt: bool, k: nat)
    requires InRange(s) && t < |s.threads| && s.threads[t].Locked()
    ensures Moves(cfg, s, t, alt, k)
  {
    hide InRange;
    PcRange(s, t);
    StepRange(s);
  }

  lemma FreeMoves(cfg: Config, s: State, t: nat, alt: bool, k: nat)
    requires InRange(s) && t < |s.threads| && s.lock.None? && !s.threads[t].Locked() && s.threads[t] != Done
    requires s.threads[t].Waiting? ==> !alt && s.threads[t].w < |s.waiters| && s.waiters[s.threads[t].w].closes > 0
    ensures Moves(cfg, s, t, alt, k)
  {
    hide InRange;
    PcRange(s, t);
    match s.threads[t]
    case Closing(todo) => if todo != [] { assert |todo[1..]| == |todo| - 1; }
    case _ =>
  }
}
