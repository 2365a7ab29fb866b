/** The promises of the connection pool, for every run: every number of goroutines, every interleaving,
    every outcome of dials and timers. */
module ConnPoolTheorems {
  import opened Ledger
  import opened ConnPool
  import opened ConnPoolProofs

  // ---- connsCount is conserved ----

  /** The units of connsCount a goroutine stands for: a connection in its hands, or a dial it has a slot for. */
  function SlotsOf(pc: Pc): int
  {
    match pc
    case Dialing => 1
    case Holding(_) => 1
    case Releasing(_) => 1
    case RelLoop(_) => 1
    case RelPopped(_, _) => 1
    case RelTry(_, _) => 1
    case RelDrop(_, _) => 1
    case Closing(todo) => |todo|
    case DecStart(_, todo) => 1 + |todo|
    case DecLoop(_, todo) => 1 + |todo|
    case DecPopped(_, todo, _) => 1 + |todo|
    case DecDrop(_, todo, _) => 1 + |todo|
    case CloseSock(_, todo) => |todo|
    case DialFor(_) => 1
    case DialGot(_, _) => 1
    case DialErr(_) => 1
    case _ => 0
  }

  /** A connection delivered to a waiter whose caller has not taken it yet. */
  function Unclaimed(x: WantConn): int { if x.conn.Some? && !x.claimed then 1 else 0 }

  lemma {:induction false} ConnsCountConserved(cfg: Config, ls: seq<Label>)
    ensures var s := RunOf(cfg, ls);
            && s.connsCount == |s.conns| + Count(s.threads, SlotsOf) + Count(s.waiters, Unclaimed)
            && 0 <= s.connsCount
            && (cfg.maxConns >= 0 ==> s.connsCount <= cfg.maxConns)
  {
    hide RunOf, PcsOk, WaitersOk, InRange, Tally, Count;
    var s := RunOf(cfg, ls);
    EveryRun(cfg, ls);
    IdleSlots(s.conns);
    QueueSlots(s.queue);
    WaiterSlots(s.waiters);
    ThreadSlots(s.threads);
    CountNonNegative(s.threads, SlotsOf);
    CountNonNegative(s.waiters, Unclaimed);
  }

  lemma {:induction false} IdleSlots(conns: seq<nat>)
    ensures Tally(conns, ConnHas, Slot) == |conns|
  {
    if conns != [] { IdleSlots(conns[..|conns| - 1]); }
  }

  lemma {:induction false} QueueSlots(queue: seq<nat>)
    ensures Tally(queue, TokHas, Slot) == 0
  {
    if queue != [] { QueueSlots(queue[..|queue| - 1]); }
  }

  lemma {:induction false} WaiterSlots(waiters: seq<WantConn>)
    ensures Tally(waiters, WaiterHas, Slot) == Count(waiters, Unclaimed)
  {
    if waiters != [] { WaiterSlots(waiters[..|waiters| - 1]); }
  }

  lemma {:induction false} ThreadSlots(threads: seq<Pc>)
    ensures Tally(threads, PcHas, Slot) == Count(threads, SlotsOf)
  {
    if threads != [] {
      ThreadSlots(threads[..|threads| - 1]);
      PcSlots(threads[|threads| - 1]);
    }
  }

  lemma PcSlots(pc: Pc)
    ensures PcHas(pc, Slot) == SlotsOf(pc)
  {
    hide Tally;
    match pc
    case Closing(todo) => IdleSlots(todo);
    case DecStart(_, todo) => IdleSlots(todo);
    case DecLoop(_, todo) => IdleSlots(todo);
    case DecPopped(_, todo, _) => IdleSlots(todo);
    case DecDrop(_, todo, _) => IdleSlots(todo);
    case CloseSock(_, todo) => IdleSlots(todo);
    case _ =>
  }

  // ---- one owner per connection, none lost ----

  datatype Owner = Idle(i: nat) | Goroutine(t: nat) | Waiter(w: nat)

  ghost predicate Owns(s: State, o: Owner, c: nat)
  {
    match o
    case Idle(i) => i < |s.conns| && s.conns[i] == c
    case Goroutine(t) => t < |s.threads| && PcHas(s.threads[t], Conn(c)) > 0
    case Waiter(w) => w < |s.waiters| && WaiterHas(s.waiters[w], Conn(c)) > 0
  }

  /** A connection that was dialed has exactly one owner until it is closed, and is closed at most once.
      In particular one that was delivered to a waiter and then cancelled is not lost. */
  lemma ExactlyOneOwner(cfg: Config, ls: seq<Label>, c: nat)
    ensures var s := RunOf(cfg, ls);
            && (forall o, o' :: Owns(s, o, c) && Owns(s, o', c) ==> o == o')
            && ((exists o :: Owns(s, o, c)) <==> c < s.nextConn && c !in s.closed)
            && s.closed[c] <= 1
  {
    hide RunOf, PcsOk, WaitersOk, InRange;
    var s := RunOf(cfg, ls);
    EveryRun(cfg, ls);
    assert Has(s, Conn(c)) <= 1 && (Has(s, Conn(c)) == 1 <==> c < s.nextConn && c !in s.closed);
    hide LedgerOk, Has;
    forall o, o' | Owns(s, o, c) && Owns(s, o', c) ensures o == o' {
      if o != o' { TwoOwners(s, o, o', c); }
    }
    if Has(s, Conn(c)) > 0 {
      var o := SomeOwner(s, c);
    } else if o :| Owns(s, o, c) {
      OwnerShare(s, o, c);
    }
  }

  lemma OwnerShare(s: State, o: Owner, c: nat)
    requires Owns(s, o, c)
    ensures Has(s, Conn(c)) > 0
  {
    hide Tally, PcHas;
    match o
    case Idle(i) => TallyRemove(s.conns, i, ConnHas, Conn(c));
    case Goroutine(t) => TallyRemove(s.threads, t, PcHas, Conn(c));
    case Waiter(w) => TallyRemove(s.waiters, w, WaiterHas, Conn(c));
  }

  lemma TwoOwners(s: State, o: Owner, o': Owner, c: nat)
    requires Owns(s, o, c) && Owns(s, o', c) && o != o'
    ensures Has(s, Conn(c)) > 1
  {
    hide Tally, PcHas;
    if o.Idle? && o'.Idle? {
      TallyTwo(s.conns, if o.i < o'.i then o.i else o'.i, if o.i < o'.i then o'.i else o.i, ConnHas, Conn(c));
    } else if o.Goroutine? && o'.Goroutine? {
      TallyTwo(s.threads, if o.t < o'.t then o.t else o'.t, if o.t < o'.t then o'.t else o.t, PcHas, Conn(c));
    } else if o.Waiter? && o'.Waiter? {
      TallyTwo(s.waiters, if o.w < o'.w then o.w else o'.w, if o.w < o'.w then o'.w else o.w, WaiterHas, Conn(c));
    } else {
      if o.Idle? { TallyRemove(s.conns, o.i, ConnHas, Conn(c)); }
      if o'.Idle? { TallyRemove(s.conns, o'.i, ConnHas, Conn(c)); }
      if o.Goroutine? { TallyRemove(s.threads, o.t, PcHas, Conn(c)); }
      if o'.Goroutine? { TallyRemove(s.threads, o'.t, PcHas, Conn(c)); }
      if o.Waiter? { TallyRemove(s.waiters, o.w, WaiterHas, Conn(c)); }
      if o'.Waiter? { TallyRemove(s.waiters, o'.w, WaiterHas, Conn(c)); }
    }
  }

  lemma SomeOwner(s: State, c: nat) returns (o: Owner)
    requires Has(s, Conn(c)) > 0
    ensures Owns(s, o, c)
  {
    hide PcHas;
    if Tally(s.conns, ConnHas, Conn(c)) > 0 {
      var i := TallyOwner(s.conns, ConnHas, Conn(c));
      o := Idle(i);
    } else if Tally(s.threads, PcHas, Conn(c)) > 0 {
      var t := TallyOwner(s.threads, PcHas, Conn(c));
      o := Goroutine(t);
    } else if Tally(s.waiters, WaiterHas, Conn(c)) > 0 {
      var w := TallyOwner(s.waiters, WaiterHas, Conn(c));
      o := Waiter(w);
    } else {
      var k := TallyOwner(s.queue, TokHas, Conn(c));
      assert false;
    }
  }

  // ---- waiters ----

  /** close(ready) happens at most once per waiter, exactly when the waiter is settled. */
  lemma SettledOnce(cfg: Config, ls: seq<Label>, w: nat)
    requires w < |RunOf(cfg, ls).waiters|
    ensures var x := RunOf(cfg, ls).waiters[w];
            && x.closes <= 1
            && (x.closes == 1 <==> x.conn.Some? || x.failed)
            && !(x.conn.Some? && x.failed)
  {
    hide RunOf, PcsOk, LedgerOk, InRange, Has;
    EveryRun(cfg, ls);
    assert WaiterOk(RunOf(cfg, ls).waiters[w]);
  }

  /** The queued waiters that nobody may answer any more. */
  ghost function Cancelled(queue: seq<nat>, waiters: seq<WantConn>): seq<nat>
    requires forall k :: 0 <= k < |queue| ==> queue[k] < |waiters|
  {
    if queue == [] then []
    else
      var rest := Cancelled(queue[..|queue| - 1], waiters);
      if waiters[queue[|queue| - 1]].Settled() then rest + [queue[|queue| - 1]] else rest
  }

  /** failedWaiters covers the cancelled waiters still queued, so a positive len() promises a waiter to answer. */
  lemma FailedWaitersCover(cfg: Config, ls: seq<Label>)
    ensures var s := RunOf(cfg, ls);
            && InRange(s)
            && |Cancelled(s.queue, s.waiters)| <= s.failedWaiters
            && (s.QueueLen() > 0 ==> exists k :: 0 <= k < |s.queue| && s.waiters[s.queue[k]].Waiting())
  {
    hide RunOf, PcsOk, InRange, Tally;
    var s := RunOf(cfg, ls);
    EveryRun(cfg, ls);
    QueueDistinct(cfg, s);
    assert InRange(s);
    hide LedgerOk, Has;
    var q := Cancelled(s.queue, s.waiters);
    CancelledOk(s.queue, s.waiters);
    CountBoundsIndices(s.waiters, q, Owed, WantConn(0, None, false, 0, false, false, false, false));
    if s.QueueLen() > 0 {
      var k := StillWaiting(s.queue, s.waiters);
      assert WaiterOk(s.waiters[s.queue[k]]);
    }
  }

  lemma QueueDistinct(cfg: Config, s: State)
    requires LedgerOk(cfg, s) && WaitersOk(s)
    ensures forall j, k :: 0 <= j < k < |s.queue| ==> s.queue[j] != s.queue[k]
    ensures forall k :: 0 <= k < |s.queue| ==> s.queue[k] < |s.waiters| && TokenOk(s.waiters[s.queue[k]])
  {
    hide Tally;
    forall j, k | 0 <= j < k < |s.queue| ensures s.queue[j] != s.queue[k] {
      TallyTwo(s.queue, j, k, TokHas, Tok(s.queue[j]));
      assert Has(s, Tok(s.queue[j])) <= 1;
    }
    forall k | 0 <= k < |s.queue| ensures s.queue[k] < |s.waiters| && TokenOk(s.waiters[s.queue[k]]) {
      TallyRemove(s.queue, k, TokHas, Tok(s.queue[k]));
      assert Has(s, Tok(s.queue[k])) > 0;
    }
  }

  ghost predicate OwedOnce(q: seq<nat>, queue: seq<nat>, waiters: seq<WantConn>)
  {
    && (forall k :: 0 <= k < |q| ==> q[k] in queue && q[k] < |waiters| && Owed(waiters[q[k]]) == 1)
    && (forall j, k :: 0 <= j < k < |q| ==> q[j] != q[k])
  }

  lemma {:induction false} CancelledOk(queue: seq<nat>, waiters: seq<WantConn>)
    requires forall k :: 0 <= k < |queue| ==> queue[k] < |waiters| && TokenOk(waiters[queue[k]])
    requires forall j, k :: 0 <= j < k < |queue| ==> queue[j] != queue[k]
    ensures OwedOnce(Cancelled(queue, waiters), queue, waiters)
  {
    if queue != [] {
      var front, last := queue[..|queue| - 1], queue[|queue| - 1];
      CancelledOk(front, waiters);
      var q, rest := Cancelled(queue, waiters), Cancelled(front, waiters);
      assert q == if waiters[last].Settled() then rest + [last] else rest;
      assert OwedOnce(rest, queue, waiters);
    }
  }

  lemma {:induction false} StillWaiting(queue: seq<nat>, waiters: seq<WantConn>) returns (k: nat)
    requires forall k :: 0 <= k < |queue| ==> queue[k] < |waiters|
    requires |Cancelled(queue, waiters)| < |queue|
    ensures k < |queue| && !waiters[queue[k]].Settled()
  {
    if waiters[queue[|queue| - 1]].Settled() {
      k := StillWaiting(queue[..|queue| - 1], waiters);
    } else {
      k := |queue| - 1;
    }
  }

  // ---- who waits, and which connection is used again ----

  /** Only acquireConn makes a wantConn, and only with no idle connection, no free slot and waiting allowed. */
  lemma NewWaiterStep(cfg: Config, s: State, l: Label)
    requires InRange(s)
    ensures |Apply(cfg, s, l).waiters| == |s.waiters|
            || (s.conns == [] && cfg.wait != 0 && 0 <= cfg.maxConns <= s.connsCount)
  {
    hide InRange;
    if l.Run? && l.t < |s.threads| {
      assert PcInRange(s.threads[l.t], |s.waiters|) by { PcRange(s, l.t); }
      match s.threads[l.t]
      case AtStart =>
      case _ =>
    }
  }

  lemma PcRange(s: State, t: nat)
    requires InRange(s) && t < |s.threads|
    ensures PcInRange(s.threads[t], |s.waiters|)
  {
  }

  /** A goroutine starts to wait only when nothing is idle and every slot of maxConns is taken. */
  lemma WaitsOnlyWhenFull(cfg: Config, ls: seq<Label>, l: Label)
    ensures var s := RunOf(cfg, ls);
            && InRange(s)
            && (|Apply(cfg, s, l).waiters| != |s.waiters| ==>
                  s.conns == [] && cfg.wait != 0 && cfg.maxConns >= 0 && s.connsCount == cfg.maxConns)
  {
    hide RunOf, Inv, InRange, Apply, Count;
    EveryRun(cfg, ls);
    ConnsCountConserved(cfg, ls);
    NewWaiterStep(cfg, RunOf(cfg, ls), l);
  }

  /** With waitFreeConnTimeout zero nobody ever waits. */
  lemma {:induction false} NobodyWaits(cfg: Config, ls: seq<Label>)
    requires cfg.wait == 0
    ensures RunOf(cfg, ls).waiters == [] && RunOf(cfg, ls).queue == []
  {
    if ls != [] {
      hide Apply, Inv, InRange;
      NobodyWaits(cfg, ls[..|ls| - 1]);
      EveryRun(cfg, ls[..|ls| - 1]);
      NewWaiterStep(cfg, RunOf(cfg, ls[..|ls| - 1]), ls[|ls| - 1]);
      EveryRun(cfg, ls);
      QueueRange(RunOf(cfg, ls));
    }
  }

  lemma QueueRange(s: State)
    requires InRange(s)
    ensures s.waiters == [] ==> s.queue == []
  {
    assert s.queue != [] ==> s.queue[0] < |s.waiters|;
  }

  /** The step of a run with which c was last put on the idle list, or -1. */
  ghost function ParkedAt(cfg: Config, ls: seq<Label>, c: nat): int
  {
    if ls == [] then -1
    else
      var was, now := RunOf(cfg, ls[..|ls| - 1]).conns, RunOf(cfg, ls).conns;
      if |now| > |was| && now[|now| - 1] == c then |ls| - 1 else ParkedAt(cfg, ls[..|ls| - 1], c)
  }

  /** A step takes connections off one end of the idle list, or puts one at its end. */
  lemma IdleStep(cfg: Config, s: State, t: nat, alt: bool, k: nat) returns (lo: nat, hi: nat)
    requires InRange(s) && t < |s.threads|
    ensures lo <= hi <= |s.conns|
    ensures var idle := StepOf(cfg, s, t, alt, k).conns;
            idle == s.conns[lo..hi] || (|idle| == |s.conns| + 1 && idle[..|s.conns|] == s.conns)
  {
    hide InRange;
    PcRange(s, t);
    lo, hi := 0, |s.conns|;
    assert s.conns[0..|s.conns|] == s.conns;
    match s.threads[t]
    case AtStart =>
      if !Blocked(s, s.threads[t]) && s.conns != [] {
        if cfg.lifo { hi := hi - 1; } else { lo := 1; }
      }
    case Releasing(c) => assert (s.conns + [c])[..|s.conns|] == s.conns;
    case RelLoop(c) => assert (s.conns + [c])[..|s.conns|] == s.conns;
    case AtCloseIdle =>
      if !Blocked(s, s.threads[t]) { lo := hi; }
    case AtClean =>
      if !Blocked(s, s.threads[t]) { lo := if k <= hi then k else hi; }
    case Clearing(_) => StepRange(s);
    case _ => assert StepOf(cfg, s, t, alt, k).conns == s.conns;
  }

  ghost function Parked(cfg: Config, ls: seq<Label>): nat -> int
  {
    (c: nat) => ParkedAt(cfg, ls, c)
  }

  /** A connection is not on the idle list twice. */
  lemma IdleDistinct(cfg: Config, s: State)
    requires Inv(cfg, s) && s.conns != []
    ensures s.conns[|s.conns| - 1] !in s.conns[..|s.conns| - 1]
  {
    hide Tally, WaitersOk, PcsOk;
    var n := |s.conns| - 1;
    forall i | 0 <= i < n ensures s.conns[i] != s.conns[n] {
      TallyTwo(s.conns, i, n, ConnHas, Conn(s.conns[i]));
      assert Has(s, Conn(s.conns[i])) <= 1;
    }
  }

  /** In every run the idle list is in the order in which the connections were last put there. */
  lemma {:induction false} IdleInOrder(cfg: Config, ls: seq<Label>)
    ensures Ascending(RunOf(cfg, ls).conns, Parked(cfg, ls), |ls|)
  {
    if ls != [] {
      hide RunOf, StepOf, Inv, InRange, Ascending, Parked;
      var front, l := ls[..|ls| - 1], ls[|ls| - 1];
      var s := RunOf(cfg, front);
      IdleInOrder(cfg, front);
      LastStep(cfg, ls);
      var lo, hi := 0, |s.conns|;
      if l.Run? && l.t < |s.threads| {
        lo, hi := IdleStep(cfg, s, l.t, l.alt, l.k);
      } else {
        assert s.conns[lo..hi] == s.conns;
      }
      OrderAfter(cfg, ls, lo, hi);
    }
  }

  lemma LastStep(cfg: Config, ls: seq<Label>)
    requires ls != []
    ensures var s := RunOf(cfg, ls[..|ls| - 1]); InRange(s) && RunOf(cfg, ls) == Apply(cfg, s, ls[|ls| - 1])
  {
    hide Apply, Inv, InRange;
    EveryRun(cfg, ls[..|ls| - 1]);
  }

  lemma OrderAfter(cfg: Config, ls: seq<Label>, lo: nat, hi: nat)
    requires ls != [] && Ascending(RunOf(cfg, ls[..|ls| - 1]).conns, Parked(cfg, ls[..|ls| - 1]), |ls| - 1)
    requires var was, now := RunOf(cfg, ls[..|ls| - 1]).conns, RunOf(cfg, ls).conns;
             && lo <= hi <= |was|
             && (now == was[lo..hi] || (|now| == |was| + 1 && now[..|was|] == was))
    ensures Ascending(RunOf(cfg, ls).conns, Parked(cfg, ls), |ls|)
  {
    hide RunOf, Ascending, Inv, InRange;
    var front := ls[..|ls| - 1];
    var was, now := RunOf(cfg, front).conns, RunOf(cfg, ls).conns;
    var at, at' := Parked(cfg, front), Parked(cfg, ls);
    if |now| == |was| + 1 {
      var c := now[|was|];
      EveryRun(cfg, ls);
      IdleDistinct(cfg, RunOf(cfg, ls));
      AscendingPush(was, c, at, at', |front|);
      assert now == was + [c];
    } else {
      AscendingSlice(was, at, at', |front|, lo, hi);
    }
  }

  /** In every run, when acquireConn finds idle connections, LIFO takes the one that was parked last and FIFO the one
      that has been idle longest; the others stay in their order. */
  lemma ReuseOrder(cfg: Config, ls: seq<Label>, u: nat, alt: bool, k: nat)
    requires var s := RunOf(cfg, ls); u < |s.threads| && s.threads[u] == AtStart && s.lock.None? && s.conns != []
    ensures InRange(RunOf(cfg, ls))
    ensures var s := RunOf(cfg, ls);
            var s', i := StepOf(cfg, s, u, alt, k), if cfg.lifo then |s.conns| - 1 else 0;
            && s'.threads == s.threads[u := Holding(s.conns[i])]
            && s'.conns == s.conns[..i] + s.conns[i + 1..] && s'.connsCount == s.connsCount
            && forall j :: 0 <= j < |s.conns| && j != i ==>
                 if cfg.lifo then ParkedAt(cfg, ls, s.conns[j]) < ParkedAt(cfg, ls, s.conns[i])
                 else ParkedAt(cfg, ls, s.conns[i]) < ParkedAt(cfg, ls, s.conns[j])
  {
    hide RunOf, Inv, InRange, ParkedAt;
    EveryRun(cfg, ls);
    IdleInOrder(cfg, ls);
    var s := RunOf(cfg, ls);
    var n := |s.conns|;
    assert s.conns[..n - 1] + s.conns[n..] == s.conns[..n - 1];
    assert s.conns[..0] + s.conns[1..] == s.conns[1..];
  }

  // ---- waiting without a time-out ----

  ghost predicate NoneTimedOut(waiters: seq<WantConn>)
  {
    forall w :: 0 <= w < |waiters| ==> !waiters[w].counted
  }

  lemma NoTimerStep(cfg: Config, s: State, l: Label)
    requires cfg.wait < 0 && InRange(s) && NoneTimedOut(s.waiters)
    ensures NoneTimedOut(Apply(cfg, s, l).waiters)
  {
    hide StepOf, InRange, NoneTimedOut;
    if l.Run? && l.t < |s.threads| {
      NoTimerRun(cfg, s, l.t, l.alt, l.k);
    }
  }

  lemma NoTimerRun(cfg: Config, s: State, t: nat, alt: bool, k: nat)
    requires cfg.wait < 0 && InRange(s) && NoneTimedOut(s.waiters) && t < |s.threads|
    ensures NoneTimedOut(StepOf(cfg, s, t, alt, k).waiters)
  {
    assert PcInRange(s.threads[t], |s.waiters|);
    match s.threads[t]
    case AtStart =>
    case Clearing(w) =>
    case ClearDrop(w, f) =>
    case Waiting(w) =>
    case Cancelling(w) =>
    case RelTry(c, w) =>
    case RelDrop(c, w) =>
    case DecDrop(sock, todo, w) =>
    case DialGot(c, w) =>
    case DialErr(w) =>
    case _ => assert StepOf(cfg, s, t, alt, k).waiters == s.waiters;
  }

  lemma {:induction false} NoTimer(cfg: Config, ls: seq<Label>)
    requires cfg.wait < 0
    ensures NoneTimedOut(RunOf(cfg, ls).waiters)
  {
    if ls != [] {
      hide Apply, Inv, InRange, NoneTimedOut;
      NoTimer(cfg, ls[..|ls| - 1]);
      EveryRun(cfg, ls[..|ls| - 1]);
      NoTimerStep(cfg, RunOf(cfg, ls[..|ls| - 1]), ls[|ls| - 1]);
    }
  }

  lemma {:induction false} NothingOwed(waiters: seq<WantConn>)
    requires NoneTimedOut(waiters)
    ensures Count(waiters, Owed) == 0
  {
    if waiters != [] { NothingOwed(waiters[..|waiters| - 1]); }
  }

  /** What every state of an untimed run has: nothing failed, and whoever may be answered still waits. */
  lemma UntimedState(cfg: Config, ls: seq<Label>)
    requires cfg.wait < 0
    ensures var s := RunOf(cfg, ls);
            && Inv(cfg, s) && InRange(s) && s.failedWaiters == 0
            && (forall w: nat :: Has(s, Tok(w)) > 0 ==> w < |s.waiters| && !s.waiters[w].Settled() && s.waiters[w].Waiting())
  {
    hide RunOf, PcsOk, LedgerOk, InRange, Has;
    EveryRun(cfg, ls);
    NoTimer(cfg, ls);
    NothingOwed(RunOf(cfg, ls).waiters);
  }

  /** The idle list grows, and connsCount drops, only when no waiter is queued. */
  lemma UntimedNeverIdleWhileQueued(cfg: Config, ls: seq<Label>, l: Label)
    requires cfg.wait < 0
    ensures var s := RunOf(cfg, ls);
            && InRange(s)
            && (|Apply(cfg, s, l).conns| > |s.conns| ==> s.queue == [])
            && (Apply(cfg, s, l).connsCount < s.connsCount ==> s.queue == [])
  {
    hide RunOf, Inv, Has;
    UntimedState(cfg, ls);
    var s := RunOf(cfg, ls);
    hide InRange;
    if l.Run? && l.t < |s.threads| {
      match s.threads[l.t]
      case RelLoop(c) =>
      case DecLoop(sock, todo) =>
      case _ =>
    }
  }

  /** A release pops the oldest waiter, tries it and succeeds, whatever other threads do in between. */
  lemma UntimedRelease(cfg: Config, ls: seq<Label>, t: nat, alt: bool, k: nat)
    requires cfg.wait < 0 && t < |RunOf(cfg, ls).threads|
    ensures var s := RunOf(cfg, ls);
            && InRange(s)
            && var s' := StepOf(cfg, s, t, alt, k);
            match s.threads[t]
            case RelLoop(c) => s.queue != [] ==> s'.threads[t] == RelPopped(c, s.queue[0]) && s'.queue == s.queue[1..]
            case RelPopped(c, w) => s'.threads[t] == RelTry(c, w)
            case RelTry(c, w) => s'.threads[t] == Done && w < |s'.waiters| && s'.waiters[w].conn == Some(c)
            case _ => true
  {
    hide RunOf, Inv, Has, PcHas, Tally;
    UntimedState(cfg, ls);
    var s := RunOf(cfg, ls);
    if s.threads[t].RelPopped? || s.threads[t].RelTry? {
      HeldRight(cfg, s, t);
    }
  }

  /** A freed slot starts a dial for the oldest waiter. */
  lemma UntimedFreedSlot(cfg: Config, ls: seq<Label>, t: nat, alt: bool, k: nat)
    requires cfg.wait < 0 && t < |RunOf(cfg, ls).threads|
    ensures var s := RunOf(cfg, ls);
            && InRange(s)
            && var s' := StepOf(cfg, s, t, alt, k);
            match s.threads[t]
            case DecLoop(sock, todo) =>
              s.queue != [] ==> s'.threads[t] == DecPopped(sock, todo, s.queue[0]) && s'.queue == s.queue[1..]
            case DecPopped(_, _, w) =>
              |s'.threads| == |s.threads| + 1 && s'.threads[|s.threads|] == DialFor(w) && s'.connsCount == s.connsCount
            case _ => true
  {
    hide RunOf, Inv, Has, PcHas, Tally;
    UntimedState(cfg, ls);
    var s := RunOf(cfg, ls);
    if s.threads[t].DecPopped? {
      HeldRight(cfg, s, t);
    }
  }

  lemma HeldRight(cfg: Config, s: State, t: nat)
    requires t < |s.threads| && (s.threads[t].RelPopped? || s.threads[t].RelTry? || s.threads[t].DecPopped?)
    ensures Has(s, Tok(s.threads[t].w)) > 0
  {
    hide Tally;
    TallyRemove(s.threads, t, PcHas, Tok(s.threads[t].w));
  }

  // ---- a whole hand-over, whatever other threads do meanwhile ----

  /** What a step of a thread at `pc` leaves of the answer a waiter has got. */
  ghost predicate StillAnswered(pc: Pc, w: nat, x: WantConn, y: WantConn)
  {
    && (x.failed ==> y.failed)
    && x.closes <= y.closes
    && (x.conn.Some? && !(pc.Cancelling? && pc.w == w) ==> y.conn == x.conn)
  }

  lemma AnswersStay(cfg: Config, s: State, t: nat, alt: bool, k: nat, w: nat)
    requires InRange(s) && t < |s.threads| && w < |s.waiters|
    ensures var s' := StepOf(cfg, s, t, alt, k);
            && w < |s'.waiters| && StillAnswered(s.threads[t], w, s.waiters[w], s'.waiters[w])
  {
    hide InRange;
    PcRange(s, t);
    match s.threads[t]
    case AtStart =>
    case Clearing(_) => StepRange(s);
    case ClearDrop(_, _) =>
    case Waiting(_) =>
    case Cancelling(_) =>
    case RelTry(_, _) =>
    case RelDrop(_, _) =>
    case DecDrop(_, _, _) =>
    case DialGot(_, _) =>
    case DialErr(_) =>
    case _ => assert StepOf(cfg, s, t, alt, k).waiters == s.waiters;
  }

  lemma StepRange(s: State)
    requires InRange(s)
    ensures forall k :: 0 <= k < |s.queue| ==> s.queue[k] < |s.waiters|
  {
  }

  /** A caller that cancels its waiter has been told of a failed dial. */
  ghost predicate CancelsFailed(s: State)
  {
    forall t :: 0 <= t < |s.threads| && s.threads[t].Cancelling? ==>
      s.threads[t].w < |s.waiters| && s.waiters[s.threads[t].w].failed
  }

  lemma CancelsFailedStep(cfg: Config, s: State, t: nat, alt: bool, k: nat)
    requires cfg.wait < 0 && Inv(cfg, s) && InRange(s) && CancelsFailed(s) && t < |s.threads|
    ensures CancelsFailed(StepOf(cfg, s, t, alt, k))
  {
    hide Inv, InRange, CancelsFailed, StepOf, Select, WaiterOk;
    var s' := StepOf(cfg, s, t, alt, k);
    OthersStay(cfg, s, t, alt, k);
    forall u | 0 <= u < |s'.threads| && s'.threads[u].Cancelling?
      ensures s'.threads[u].w < |s'.waiters| && s'.waiters[s'.threads[u].w].failed
    {
      if u != t && u < |s.threads| {
        CancelFailed(s, u);
        AnswersStay(cfg, s, t, alt, k, s.threads[u].w);
      } else if u == t {
        if s.threads[t].Waiting? {
          WaitingStep(cfg, s, t, alt, k);
          WaiterFits(cfg, s, s.threads[t].w);
          CancelIsTold(cfg, s, t, s.threads[t].w, alt);
        } else {
          CancelComes(cfg, s, t, alt, k);
        }
      } else {
        NewThread(cfg, s, t, alt, k);
      }
    }
    AllCancelsFailed(s');
  }

  lemma CancelFailed(s: State, u: nat)
    requires CancelsFailed(s) && u < |s.threads| && s.threads[u].Cancelling?
    ensures s.threads[u].w < |s.waiters| && s.waiters[s.threads[u].w].failed
  {
  }

  lemma AllCancelsFailed(s: State)
    requires forall t :: 0 <= t < |s.threads| && s.threads[t].Cancelling? ==>
               s.threads[t].w < |s.waiters| && s.waiters[s.threads[t].w].failed
    ensures CancelsFailed(s)
  {
  }

  /** A step moves its own thread and may start a new one. */
  lemma OthersStay(cfg: Config, s: State, t: nat, alt: bool, k: nat)
    requires InRange(s) && t < |s.threads|
    ensures var s' := StepOf(cfg, s, t, alt, k);
            |s.threads| <= |s'.threads| && forall u :: 0 <= u < |s.threads| && u != t ==> s'.threads[u] == s.threads[u]
  {
    hide InRange;
    PcRange(s, t);
    match s.threads[t]
    case Clearing(_) => StepRange(s);
    case _ =>
  }

  lemma NewThread(cfg: Config, s: State, t: nat, alt: bool, k: nat)
    requires InRange(s) && t < |s.threads|
    ensures var s' := StepOf(cfg, s, t, alt, k);
            forall u :: |s.threads| <= u < |s'.threads| ==> s'.threads[u].DialFor?
  {
    hide InRange;
    PcRange(s, t);
    match s.threads[t]
    case Clearing(_) => StepRange(s);
    case _ =>
  }

  lemma CancelComes(cfg: Config, s: State, t: nat, alt: bool, k: nat)
    requires InRange(s) && t < |s.threads| && !s.threads[t].Waiting?
    ensures var s' := StepOf(cfg, s, t, alt, k); t < |s'.threads| && !s'.threads[t].Cancelling?
  {
    hide InRange, Select, CancelWaiter, TryDeliver;
    PcRange(s, t);
    match s.threads[t]
    case Clearing(_) => StepRange(s);
    case _ =>
  }

  lemma WaitingStep(cfg: Config, s: State, t: nat, alt: bool, k: nat)
    requires InRange(s) && t < |s.threads| && s.threads[t].Waiting?
    ensures s.threads[t].w < |s.waiters| && StepOf(cfg, s, t, alt, k) == Select(cfg, s, t, s.threads[t].w, alt)
  {
    hide InRange, Select;
    PcRange(s, t);
  }

  lemma CancelIsTold(cfg: Config, s: State, t: nat, w: nat, timer: bool)
    requires cfg.wait < 0 && t < |s.threads| && s.threads[t] == Waiting(w) && w < |s.waiters| && WaiterOk(s.waiters[w])
    requires Select(cfg, s, t, w, timer).threads[t].Cancelling?
    ensures var s' := Select(cfg, s, t, w, timer); s'.threads[t].w == w < |s'.waiters| && s'.waiters[w].failed
  {
  }

  lemma WaiterFits(cfg: Config, s: State, w: nat)
    requires Inv(cfg, s) && w < |s.waiters|
    ensures WaiterOk(s.waiters[w])
  {
  }

  lemma {:induction false} UntimedCancels(cfg: Config, ls: seq<Label>)
    requires cfg.wait < 0
    ensures CancelsFailed(RunOf(cfg, ls))
  {
    hide StepOf, Inv, InRange;
    if ls != [] {
      var front, l := ls[..|ls| - 1], ls[|ls| - 1];
      UntimedCancels(cfg, front);
      EveryRun(cfg, front);
      var s := RunOf(cfg, front);
      if l.Run? && l.t < |s.threads| {
        CancelsFailedStep(cfg, s, l.t, l.alt, l.k);
      }
    }
  }

  /** Without a time-out a connection that was delivered to a waiter stays delivered. */
  lemma DeliveredStays(cfg: Config, ls: seq<Label>, l: Label, w: nat)
    requires cfg.wait < 0 && w < |RunOf(cfg, ls).waiters| && RunOf(cfg, ls).waiters[w].conn.Some?
    ensures InRange(RunOf(cfg, ls))
    ensures var s := RunOf(cfg, ls);
            var s' := Apply(cfg, s, l);
            w < |s'.waiters| && s'.waiters[w].conn == s.waiters[w].conn
  {
    hide RunOf, StepOf, Inv, InRange, CancelsFailed;
    EveryRun(cfg, ls);
    UntimedCancels(cfg, ls);
    SettledOnce(cfg, ls, w);
    var s := RunOf(cfg, ls);
    if l.Run? && l.t < |s.threads| {
      AnswersStay(cfg, s, l.t, l.alt, l.k, w);
      if s.threads[l.t].Cancelling? { CancelFailed(s, l.t); }
    }
  }

  /** How many of the steps are steps of thread t. */
  function Steps(ls: seq<Label>, t: nat): nat
  {
    if ls == [] then 0
    else Steps(ls[..|ls| - 1], t) + if ls[|ls| - 1].Run? && ls[|ls| - 1].t == t then 1 else 0
  }

  /** How far the release of c by thread t has come after n of its own steps. */
  ghost predicate HandingOver(s: State, t: nat, c: nat, w: nat, n: nat)
  {
    && t < |s.threads| && w < |s.waiters|
    && match n
       case 0 => s.threads[t] == RelLoop(c) && s.queue != [] && s.queue[0] == w
       case 1 => s.threads[t] == RelPopped(c, w)
       case 2 => s.threads[t] == RelTry(c, w)
       case _ => s.waiters[w].conn == Some(c)
  }

  /** While t holds the lock only t changes the queue. */
  lemma LockKeepsQueue(cfg: Config, s: State, t: nat, u: nat, alt: bool, k: nat)
    requires Inv(cfg, s) && InRange(s) && t < |s.threads| && u < |s.threads| && t != u && s.threads[t].Locked()
    ensures StepOf(cfg, s, u, alt, k).queue == s.queue
  {
    hide InRange, LedgerOk, WaitersOk;
    PcRange(s, u);
    assert PcOk(s, t, s.threads[t]) && PcOk(s, u, s.threads[u]);
    match s.threads[u]
    case Clearing(_) => StepRange(s);
    case _ =>
  }

  lemma HandOverStep(cfg: Config, ls: seq<Label>, l: Label, t: nat, c: nat, w: nat, n: nat)
    requires cfg.wait < 0 && HandingOver(RunOf(cfg, ls), t, c, w, n)
    ensures InRange(RunOf(cfg, ls))
    ensures HandingOver(Apply(cfg, RunOf(cfg, ls), l), t, c, w, if l.Run? && l.t == t then n + 1 else n)
  {
    hide RunOf, StepOf, Inv, InRange, PcHas, Has, Tally;
    UntimedState(cfg, ls);
    var s := RunOf(cfg, ls);
    if n >= 3 {
      DeliveredStays(cfg, ls, l, w);
      if l.Run? && l.t < |s.threads| { OthersStay(cfg, s, l.t, l.alt, l.k); }
    } else if l.Run? && l.t == t {
      UntimedRelease(cfg, ls, t, l.alt, l.k);
      AnswersStay(cfg, s, t, l.alt, l.k, w);
      OthersStay(cfg, s, t, l.alt, l.k);
    } else if l.Run? && l.t < |s.threads| {
      OthersStay(cfg, s, l.t, l.alt, l.k);
      AnswersStay(cfg, s, l.t, l.alt, l.k, w);
      LockKeepsQueue(cfg, s, t, l.t, l.alt, l.k);
    }
  }

  /** A release that has the lock while w is the oldest waiter hands its connection to w: after three steps of its own,
      however many steps other threads take in between and afterwards, w has it; until then it is on its way. */
  lemma {:induction false} UntimedHandOver(cfg: Config, ls: seq<Label>, more: seq<Label>, t: nat, c: nat)
    requires cfg.wait < 0
    requires var s := RunOf(cfg, ls); t < |s.threads| && s.threads[t] == RelLoop(c) && s.queue != []
    ensures HandingOver(RunOf(cfg, ls + more), t, c, RunOf(cfg, ls).queue[0], Steps(more, t))
    decreases |more|
  {
    hide Apply, HandingOver, Inv, InRange, RunOf;
    var w := RunOf(cfg, ls).queue[0];
    if more == [] {
      assert ls + more == ls;
      EveryRun(cfg, ls);
      HandOverBegins(RunOf(cfg, ls), t, c);
    } else {
      var front := more[..|more| - 1];
      UntimedHandOver(cfg, ls, front, t, c);
      HandOverStep(cfg, ls + front, more[|more| - 1], t, c, w, Steps(front, t));
      OneMore(cfg, ls, more);
    }
  }

  lemma HandOverBegins(s: State, t: nat, c: nat)
    requires InRange(s) && t < |s.threads| && s.threads[t] == RelLoop(c) && s.queue != []
    ensures HandingOver(s, t, c, s.queue[0], 0)
  {
  }

  lemma OneMore(cfg: Config, ls: seq<Label>, more: seq<Label>)
    requires more != []
    ensures InRange(RunOf(cfg, ls + more[..|more| - 1]))
    ensures RunOf(cfg, ls + more) == Apply(cfg, RunOf(cfg, ls + more[..|more| - 1]), more[|more| - 1])
  {
    hide Apply, Inv, InRange;
    EveryRun(cfg, ls + more[..|more| - 1]);
    var all := ls + more;
    assert all[..|all| - 1] == ls + more[..|more| - 1] && all[|all| - 1] == more[|more| - 1];
  }

  /** How far decConnsCount of thread t has come after n of its own steps with the lock: with the second it starts a
      dial for w as a new goroutine. */
  ghost predicate Refilling(s: State, t: nat, sock: Option<nat>, todo: seq<nat>, w: nat, n: nat)
  {
    && t < |s.threads| && w < |s.waiters|
    && match n
       case 0 => s.threads[t] == DecLoop(sock, todo) && s.queue != [] && s.queue[0] == w
       case _ => s.threads[t] == DecPopped(sock, todo, w)
  }

  /** The dial of goroutine u for w has come to its n-th step, or w has its answer. */
  ghost predicate DialingFor(s: State, u: nat, w: nat, n: nat)
  {
    && u < |s.threads| && w < |s.waiters|
    && match n
       case 0 => s.threads[u] == DialFor(w)
       case 1 => s.threads[u] == DialErr(w) || (s.threads[u].DialGot? && s.threads[u].w == w)
       case _ => s.waiters[w].closes > 0
  }

  lemma DialStep(cfg: Config, ls: seq<Label>, l: Label, u: nat, w: nat, n: nat)
    requires DialingFor(RunOf(cfg, ls), u, w, n)
    ensures InRange(RunOf(cfg, ls))
    ensures DialingFor(Apply(cfg, RunOf(cfg, ls), l), u, w, if l.Run? && l.t == u then n + 1 else n)
  {
    hide RunOf, Inv, InRange, StepOf;
    EveryRun(cfg, ls);
    var s := RunOf(cfg, ls);
    if l.Run? && l.t < |s.threads| {
      OthersStay(cfg, s, l.t, l.alt, l.k);
      AnswersStay(cfg, s, l.t, l.alt, l.k, w);
      if l.t == u && n < 2 {
        SettledOnce(cfg, ls, w);
        DialMoves(cfg, s, u, l.alt, l.k);
      }
    }
  }

  lemma DialMoves(cfg: Config, s: State, u: nat, alt: bool, k: nat)
    requires InRange(s) && u < |s.threads|
    ensures var s' := StepOf(cfg, s, u, alt, k);
            match s.threads[u]
            case DialFor(w) => s'.threads[u] == DialErr(w) || (s'.threads[u].DialGot? && s'.threads[u].w == w)
            case DialGot(_, w) => w < |s'.waiters| && (s.waiters[w].Settled() || s'.waiters[w].closes > 0)
            case DialErr(w) => w < |s'.waiters| && (s.waiters[w].Settled() || s'.waiters[w].closes > 0)
            case _ => true
  {
    hide InRange;
    PcRange(s, u);
  }

  /** A dial started for w answers w with its second step, with or without time-outs. */
  lemma {:induction false} DialAnswers(cfg: Config, ls: seq<Label>, more: seq<Label>, u: nat, w: nat)
    requires DialingFor(RunOf(cfg, ls), u, w, 0)
    ensures DialingFor(RunOf(cfg, ls + more), u, w, Steps(more, u))
    decreases |more|
  {
    hide Apply, DialingFor, Inv, InRange, RunOf;
    if more == [] {
      assert ls + more == ls;
    } else {
      var front := more[..|more| - 1];
      DialAnswers(cfg, ls, front, u, w);
      DialStep(cfg, ls + front, more[|more| - 1], u, w, Steps(front, u));
      OneMore(cfg, ls, more);
    }
  }

  lemma RefillStep(cfg: Config, ls: seq<Label>, l: Label, t: nat, sock: Option<nat>, todo: seq<nat>, w: nat, n: nat)
    requires cfg.wait < 0 && n < 2 && Refilling(RunOf(cfg, ls), t, sock, todo, w, n)
    ensures InRange(RunOf(cfg, ls))
    ensures var s := RunOf(cfg, ls);
            var s' := Apply(cfg, s, l);
            if !(l.Run? && l.t == t) then Refilling(s', t, sock, todo, w, n)
            else if n == 0 then Refilling(s', t, sock, todo, w, 1)
            else DialingFor(s', |s.threads|, w, 0)
  {
    hide RunOf, StepOf, Inv, InRange, PcHas, Has, Tally;
    UntimedState(cfg, ls);
    var s := RunOf(cfg, ls);
    if l.Run? && l.t < |s.threads| {
      OthersStay(cfg, s, l.t, l.alt, l.k);
      AnswersStay(cfg, s, l.t, l.alt, l.k, w);
      if l.t == t {
        UntimedFreedSlot(cfg, ls, t, l.alt, l.k);
      } else {
        LockKeepsQueue(cfg, s, t, l.t, l.alt, l.k);
      }
    }
  }

  /** At some point of the continuation goroutine u starts a dial for w, and `rest` follows. */
  ghost predicate DialStarts(cfg: Config, ls: seq<Label>, more: seq<Label>, rest: seq<Label>, u: nat, w: nat)
  {
    && |rest| <= |more| && rest == more[|more| - |rest|..]
    && DialingFor(RunOf(cfg, ls + more[..|more| - |rest|]), u, w, 0)
  }

  /** A decConnsCount that has the lock while w is the oldest waiter does not give the slot up: with its second step it
      starts a dial for w, and w is answered with the second step of that dial. */
  lemma {:induction false} UntimedRefill(cfg: Config, ls: seq<Label>, more: seq<Label>, t: nat, sock: Option<nat>, todo: seq<nat>)
    requires cfg.wait < 0
    requires var s := RunOf(cfg, ls); t < |s.threads| && s.threads[t] == DecLoop(sock, todo) && s.queue != []
    ensures var w, s' := RunOf(cfg, ls).queue[0], RunOf(cfg, ls + more);
            if Steps(more, t) < 2 then Refilling(s', t, sock, todo, w, Steps(more, t))
            else exists rest, u ::
              DialStarts(cfg, ls, more, rest, u, w) && (Steps(rest, u) >= 2 ==> w < |s'.waiters| && s'.waiters[w].Settled())
    decreases |more|
  {
    hide Apply, DialingFor, Refilling, Inv, InRange, RunOf;
    var w := RunOf(cfg, ls).queue[0];
    if more == [] {
      assert ls + more == ls;
      EveryRun(cfg, ls);
      RefillBegins(RunOf(cfg, ls), t, sock, todo);
    } else {
      var front, l := more[..|more| - 1], more[|more| - 1];
      UntimedRefill(cfg, ls, front, t, sock, todo);
      OneMore(cfg, ls, more);
      if Steps(front, t) < 2 {
        RefillStep(cfg, ls + front, l, t, sock, todo, w, Steps(front, t));
        if Steps(more, t) == 2 {
          var u := |RunOf(cfg, ls + front).threads|;
          assert more[..|more|] == more && more[|more|..] == [];
          assert DialStarts(cfg, ls, more, [], u, w) && Steps([], u) == 0;
        }
      } else {
        var rest, u :| DialStarts(cfg, ls, front, rest, u, w);
        StartsEarlier(cfg, ls, more, rest, u, w);
        DialEnds(cfg, ls, more, rest + [l], u, w);
      }
    }
  }

  lemma StartsEarlier(cfg: Config, ls: seq<Label>, more: seq<Label>, rest: seq<Label>, u: nat, w: nat)
    requires more != [] && DialStarts(cfg, ls, more[..|more| - 1], rest, u, w)
    ensures DialStarts(cfg, ls, more, rest + [more[|more| - 1]], u, w)
  {
    hide DialingFor, RunOf;
    var front, n := more[..|more| - 1], |more| - 1 - |rest|;
    assert more[..n] == front[..n];
    assert more[n..] == front[n..] + [more[|more| - 1]];
  }

  lemma DialEnds(cfg: Config, ls: seq<Label>, more: seq<Label>, rest: seq<Label>, u: nat, w: nat)
    requires DialStarts(cfg, ls, more, rest, u, w)
    ensures var s' := RunOf(cfg, ls + more); Steps(rest, u) >= 2 ==> w < |s'.waiters| && s'.waiters[w].Settled()
  {
    hide RunOf, Steps;
    var n := |more| - |rest|;
    DialAnswers(cfg, ls + more[..n], rest, u, w);
    assert (ls + more[..n]) + rest == ls + more;
    if Steps(rest, u) >= 2 { SettledOnce(cfg, ls + more, w); }
  }

  lemma RefillBegins(s: State, t: nat, sock: Option<nat>, todo: seq<nat>)
    requires InRange(s) && t < |s.threads| && s.threads[t] == DecLoop(sock, todo) && s.queue != []
    ensures Refilling(s, t, sock, todo, s.queue[0], 0)
  {
  }
}
