/** The connection pool of HostClient: acquireConn, releaseConn, closeConn, decConnsCount,
    dialConnFor, queueForIdle, wantConn, CloseIdleConnections and Clean.

    Goroutines are threads with a program counter. Every atomic action is one step: a `connsLock`
    section, a `w.mu` section, an atomic update of `failedWaiters`, a channel test. The loops that pop
    waiters hold `connsLock` over several steps, so that cancellations and time-outs of other threads
    interleave with them as they do in the program. */
module ConnPool {
  import opened Ledger

  /** Settings that stay fixed: `wait` is waitFreeConnTimeout (0: fail at once, < 0: wait forever). */
  datatype Config = Config(maxConns: int, wait: int, lifo: bool)

  /** wantConn. `closes` counts close(ready); the other flags record what has happened to it:
      `queued`, pushBack was done; `counted`, its timer added one to failedWaiters; `dropped`, it was
      popped as no longer waiting and taken off failedWaiters; `claimed`, its caller took `conn`. */
  datatype WantConn = WantConn(owner: nat, conn: Option<nat>, failed: bool, closes: nat,
                               queued: bool, counted: bool, dropped: bool, claimed: bool)
  {
    predicate Settled() { conn.Some? || failed }
    predicate Waiting() { closes == 0 }
  }

  /** Where a goroutine is, with its local variables. */
  datatype Pc =
    | AtStart                                                  // about to call acquireConn
    | Dialing                                                  // a slot is reserved, dialHostHard runs
    | Enqueue(w: nat)                                          // queueForIdle, before the lock
    | Clearing(w: nat)                                         // clearFront, at the loop head
    | ClearDrop(w: nat, front: nat)                            // clearFront, `front` popped, not yet counted off
    | Waiting(w: nat)                                          // select on w.ready and the timer
    | Cancelling(w: nat)                                       // deferred w.cancel
    | Holding(c: nat)                                          // acquireConn returned c
    | Releasing(c: nat)                                        // releaseConn, before the lock
    | RelLoop(c: nat) | RelPopped(c: nat, w: nat) | RelTry(c: nat, w: nat) | RelDrop(c: nat, w: nat)
    | Closing(todo: seq<nat>)                                  // closeConn for each of todo
    | DecStart(sock: Option<nat>, todo: seq<nat>)              // decConnsCount, before the lock
    | DecLoop(sock: Option<nat>, todo: seq<nat>)
    | DecPopped(sock: Option<nat>, todo: seq<nat>, w: nat)
    | DecDrop(sock: Option<nat>, todo: seq<nat>, w: nat)
    | CloseSock(c: nat, todo: seq<nat>)                        // decConnsCount returned, cc.c.Close()
    | DialFor(w: nat) | DialGot(c: nat, w: nat) | DialErr(w: nat)  // dialConnFor
    | AtCloseIdle | AtClean
    | Done
  {
    /** The thread is inside a loop that holds connsLock. */
    predicate Locked() {
      Clearing? || ClearDrop? || RelLoop? || RelPopped? || RelTry? || RelDrop? || DecLoop? || DecPopped? || DecDrop?
    }

    /** The thread refers to a wantConn. */
    predicate Named() {
      Enqueue? || Clearing? || ClearDrop? || Waiting? || Cancelling? || RelPopped? || RelTry? || RelDrop?
      || DecPopped? || DecDrop? || DialFor? || DialGot? || DialErr?
    }
  }

  datatype State = State(
    conns: seq<nat>, connsCount: int, queue: seq<nat>, failedWaiters: int,
    lock: Option<nat>, waiters: seq<WantConn>, threads: seq<Pc>,
    nextConn: nat, closed: multiset<nat>)
  {
    /** wantConnQueue.len */
    function QueueLen(): int { |queue| - failedWaiters }

    function Goto(t: nat, pc: Pc): State
      requires t < |threads|
    {
      this.(threads := threads[t := pc])
    }
  }

  const Init := State([], 0, [], 0, None, [], [], 0, multiset{})

  // ---- steps, one per atomic action ----

  /** acquireConn: the locked section and, when there is neither a connection nor a slot, the new wantConn. */
  function Acquire(cfg: Config, s: State, t: nat): State
    requires t < |s.threads|
  {
    var n := |s.conns|;
    if n == 0 then
      if s.connsCount < cfg.maxConns || cfg.maxConns < 0 then
        s.(connsCount := s.connsCount + 1).Goto(t, Dialing)
      else if cfg.wait == 0 then
        s.Goto(t, Done)
      else
        var w := WantConn(t, None, false, 0, false, false, false, false);
        s.(waiters := s.waiters + [w]).Goto(t, Enqueue(|s.waiters|))
    else if cfg.lifo then
      s.(conns := s.conns[..n - 1]).Goto(t, Holding(s.conns[n - 1]))
    else
      s.(conns := s.conns[1..]).Goto(t, Holding(s.conns[0]))
  }

  /** The dialed connection gets a fresh identity. */
  function DialDone(s: State, t: nat, ok: bool): State
    requires t < |s.threads|
  {
    if ok then s.(nextConn := s.nextConn + 1).Goto(t, Holding(s.nextConn))
    else s.Goto(t, DecStart(None, []))
  }

  /** One round of clearFront; when the front is absent or waiting, pushBack(w) and unlock. */
  function ClearFront(s: State, t: nat, w: nat): State
    requires t < |s.threads| && w < |s.waiters|
    requires forall k :: 0 <= k < |s.queue| ==> s.queue[k] < |s.waiters|
  {
    if s.queue != [] && !s.waiters[s.queue[0]].Waiting() then
      s.(queue := s.queue[1..]).Goto(t, ClearDrop(w, s.queue[0]))
    else
      s.(queue := s.queue + [w], waiters := s.waiters[w := s.waiters[w].(queued := true)], lock := None).Goto(t, Waiting(w))
  }

  /** failedWaiters.Add(-1) for a popped waiter that does not wait any more. */
  function CountOff(s: State, w: nat): State
    requires w < |s.waiters|
  {
    s.(failedWaiters := s.failedWaiters - 1, waiters := s.waiters[w := s.waiters[w].(dropped := true)])
  }

  /** The caller's select: `timer` says that the timer case was chosen. */
  function Select(cfg: Config, s: State, t: nat, w: nat, timer: bool): State
    requires t < |s.threads| && w < |s.waiters|
  {
    var x := s.waiters[w];
    if timer then
      if cfg.wait > 0 then
        s.(failedWaiters := s.failedWaiters + 1, waiters := s.waiters[w := x.(counted := true)]).Goto(t, Cancelling(w))
      else s
    else if x.closes == 0 then s
    else if x.conn.Some? && !x.failed then
      s.(waiters := s.waiters[w := x.(claimed := true)]).Goto(t, Holding(x.conn.value))
    else s.Goto(t, Cancelling(w))
  }

  /** wantConn.tryDeliver; `None` delivers an error. */
  function TryDeliver(x: WantConn, c: Option<nat>): WantConn {
    if x.Settled() then x else x.(conn := c, failed := c.None?, closes := x.closes + 1)
  }

  /** wantConn.cancel */
  function CancelWaiter(x: WantConn): WantConn {
    x.(conn := None, failed := true, closes := if x.Settled() then x.closes else x.closes + 1)
  }

  function Cancel(s: State, t: nat, w: nat): State
    requires t < |s.threads| && w < |s.waiters|
  {
    var x := s.waiters[w];
    s.(waiters := s.waiters[w := CancelWaiter(x)]).Goto(t, if x.conn.Some? then Releasing(x.conn.value) else Done)
  }

  function ReleaseStart(cfg: Config, s: State, t: nat, c: nat): State
    requires t < |s.threads|
  {
    if cfg.wait == 0 then s.(conns := s.conns + [c]).Goto(t, Done)
    else s.(lock := Some(t)).Goto(t, RelLoop(c))
  }

  function ReleaseLoop(s: State, t: nat, c: nat): State
    requires t < |s.threads|
  {
    if s.QueueLen() > 0 && s.queue != [] then s.(queue := s.queue[1..]).Goto(t, RelPopped(c, s.queue[0]))
    else s.(conns := s.conns + [c], lock := None).Goto(t, Done)
  }

  function ReleaseTry(s: State, t: nat, c: nat, w: nat): State
    requires t < |s.threads| && w < |s.waiters|
  {
    var x := s.waiters[w];
    if x.Settled() then s.Goto(t, RelDrop(c, w))
    else s.(waiters := s.waiters[w := TryDeliver(x, Some(c))], lock := None).Goto(t, Done)
  }

  /** closeConn of the next connection, or the end of the list. */
  function CloseNext(s: State, t: nat, todo: seq<nat>): State
    requires t < |s.threads|
  {
    if todo == [] then s.Goto(t, Done) else s.Goto(t, DecStart(Some(todo[0]), todo[1..]))
  }

  /** Where decConnsCount returns to: to the close of the socket, or to the end of a failed dial. */
  function AfterDec(sock: Option<nat>, todo: seq<nat>): Pc {
    if sock.Some? then CloseSock(sock.value, todo) else Closing(todo)
  }

  function DecConnsStart(cfg: Config, s: State, t: nat, sock: Option<nat>, todo: seq<nat>): State
    requires t < |s.threads|
  {
    if cfg.wait == 0 then s.(connsCount := s.connsCount - 1).Goto(t, AfterDec(sock, todo))
    else s.(lock := Some(t)).Goto(t, DecLoop(sock, todo))
  }

  function DecConnsLoop(s: State, t: nat, sock: Option<nat>, todo: seq<nat>): State
    requires t < |s.threads|
  {
    if s.QueueLen() > 0 && s.queue != [] then s.(queue := s.queue[1..]).Goto(t, DecPopped(sock, todo, s.queue[0]))
    else s.(connsCount := s.connsCount - 1, lock := None).Goto(t, AfterDec(sock, todo))
  }

  /** The popped waiter still waits: its dial is started as a new goroutine and takes the slot over. */
  function DecConnsTest(s: State, t: nat, sock: Option<nat>, todo: seq<nat>, w: nat): State
    requires t < |s.threads| && w < |s.waiters|
  {
    if s.waiters[w].Waiting() then
      s.(threads := s.threads[t := AfterDec(sock, todo)] + [DialFor(w)], lock := None)
    else s.Goto(t, DecDrop(sock, todo, w))
  }

  function CloseSocket(s: State, t: nat, sock: nat, todo: seq<nat>): State
    requires t < |s.threads|
  {
    s.(closed := s.closed + multiset{sock}).Goto(t, Closing(todo))
  }

  function DialForDone(s: State, t: nat, w: nat, ok: bool): State
    requires t < |s.threads|
  {
    if ok then s.(nextConn := s.nextConn + 1).Goto(t, DialGot(s.nextConn, w)) else s.Goto(t, DialErr(w))
  }

  function DialDeliver(s: State, t: nat, c: nat, w: nat): State
    requires t < |s.threads| && w < |s.waiters|
  {
    var x := s.waiters[w];
    if x.Settled() then s.Goto(t, Releasing(c))
    else s.(waiters := s.waiters[w := TryDeliver(x, Some(c))]).Goto(t, Done)
  }

  function DialReport(s: State, t: nat, w: nat): State
    requires t < |s.threads| && w < |s.waiters|
  {
    s.(waiters := s.waiters[w := TryDeliver(s.waiters[w], None)]).Goto(t, DecStart(None, []))
  }

  /** CloseIdleConnections and Clean both take a prefix of the idle list under the lock and close it. */
  function TakeIdle(s: State, t: nat, k: nat): State
    requires t < |s.threads| && k <= |s.conns|
  {
    s.(conns := s.conns[k..]).Goto(t, Closing(s.conns[..k]))
  }

  // ---- runs ----

  /** `Run(t, alt, k)` lets thread t take its next step: `alt` picks the successful dial, the timer, or
      release instead of close; `k` is how many idle connections Clean found expired.
      A step that must wait for the lock leaves the state as it is. */
  datatype Label = Start | StartCloseIdle | StartClean | Run(t: nat, alt: bool, k: nat)

  ghost predicate InRange(s: State)
  {
    && (forall k :: 0 <= k < |s.queue| ==> s.queue[k] < |s.waiters|)
    && (forall t :: 0 <= t < |s.threads| ==> PcInRange(s.threads[t], |s.waiters|))
  }

  predicate PcInRange(pc: Pc, n: nat)
  {
    && (pc.Named() ==> pc.w < n)
    && (pc.ClearDrop? ==> pc.front < n)
  }

  predicate Blocked(s: State, pc: Pc)
  {
    s.lock.Some? && (pc.AtStart? || pc.Enqueue? || pc.Releasing? || pc.DecStart? || pc.AtCloseIdle? || pc.AtClean?)
  }

  ghost function StepOf(cfg: Config, s: State, t: nat, alt: bool, k: nat): State
    requires InRange(s) && t < |s.threads|
  {
    var pc := s.threads[t];
    if Blocked(s, pc) then s else
      match pc
      case AtStart => Acquire(cfg, s, t)
      case Dialing => DialDone(s, t, alt)
      case Enqueue(w) => s.(lock := Some(t)).Goto(t, Clearing(w))
      case Clearing(w) => ClearFront(s, t, w)
      case ClearDrop(w, f) => CountOff(s, f).Goto(t, Clearing(w))
      case Waiting(w) => Select(cfg, s, t, w, alt)
      case Cancelling(w) => Cancel(s, t, w)
      case Holding(c) => if alt then s.Goto(t, Releasing(c)) else s.Goto(t, Closing([c]))
      case Releasing(c) => ReleaseStart(cfg, s, t, c)
      case RelLoop(c) => ReleaseLoop(s, t, c)
      case RelPopped(c, w) => if s.waiters[w].Waiting() then s.Goto(t, RelTry(c, w)) else s.Goto(t, RelDrop(c, w))
      case RelTry(c, w) => ReleaseTry(s, t, c, w)
      case RelDrop(c, w) => CountOff(s, w).Goto(t, RelLoop(c))
      case Closing(todo) => CloseNext(s, t, todo)
      case DecStart(sock, todo) => DecConnsStart(cfg, s, t, sock, todo)
      case DecLoop(sock, todo) => DecConnsLoop(s, t, sock, todo)
      case DecPopped(sock, todo, w) => DecConnsTest(s, t, sock, todo, w)
      case DecDrop(sock, todo, w) => CountOff(s, w).Goto(t, DecLoop(sock, todo))
      case CloseSock(sock, todo) => CloseSocket(s, t, sock, todo)
      case DialFor(w) => DialForDone(s, t, w, alt)
      case DialGot(c, w) => DialDeliver(s, t, c, w)
      case DialErr(w) => DialReport(s, t, w)
      case AtCloseIdle => TakeIdle(s, t, |s.conns|)
      case AtClean => TakeIdle(s, t, if k <= |s.conns| then k else |s.conns|)
      case Done => s
  }

  ghost function Apply(cfg: Config, s: State, l: Label): State
    requires InRange(s)
  {
    match l
    case Start => s.(threads := s.threads + [AtStart])
    case StartCloseIdle => s.(threads := s.threads + [AtCloseIdle])
    case StartClean => s.(threads := s.threads + [AtClean])
    case Run(t, alt, k) => if t < |s.threads| then StepOf(cfg, s, t, alt, k) else s
  }
}
