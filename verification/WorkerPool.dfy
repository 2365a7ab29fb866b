/** workerPool: a machine whose steps are the critical sections, channel operations and phases of its goroutines. */
module WorkerPool {
  import opened Ledger

  /** What goes through a worker's channel: a connection, or nil, which tells the worker to leave. */
  datatype Message = Conn(c: nat) | Nil

  /** A worker goroutine: not there; at the head of its loop; serving; about to call release; out of its loop; done,
      with its channel about to go back to the pool. */
  datatype Worker = Absent | Waiting | Serving(c: nat) | Served(c: nat) | Leaving | Ended

  /** A channel of capacity one and the worker that reads it. */
  datatype Chan = Chan(worker: Worker, buf: Option<Message>)

  /** A goroutine that has taken a channel out of ready (or made it) and has yet to send. */
  datatype Sender = Sender(ch: nat, msg: Message)

  /** accepted counts the connections Serve has taken; done lists those whose WorkerFunc has returned. */
  datatype State = State(chans: seq<Chan>, ready: seq<nat>, senders: seq<Sender>, mustStop: bool, workersCount: int,
                         accepted: nat, done: seq<nat>)

  const START: State := State([], [], [], false, 0, 0, [])

  datatype Label =
    | Serve(pooled: nat)
    | Send(i: nat)
    | Receive(ch: nat)
    | Finish(ch: nat)
    | Release(ch: nat)
    | Exit(ch: nat)
    | Recycle(ch: nat)
    | Clean(n: nat)
    | Stop

  function SetWorker(s: State, ch: nat, w: Worker): State
    requires ch < |s.chans|
  {
    s.(chans := s.chans[ch := s.chans[ch].(worker := w)])
  }

  /** getCh with an idle worker: the one that was used last. */
  function ServeReady(s: State): State
    requires s.ready != []
  {
    var n := |s.ready| - 1;
    s.(ready := s.ready[..n], senders := s.senders + [Sender(s.ready[n], Conn(s.accepted))], accepted := s.accepted + 1)
  }

  /** getCh with a new worker, on a channel from the pool or, with ch == |chans|, on a new one. */
  function ServeNew(s: State, ch: nat): State
    requires ch <= |s.chans|
  {
    var chans := if ch < |s.chans| then s.chans[ch := s.chans[ch].(worker := Waiting)] else s.chans + [Chan(Waiting, None)];
    s.(chans := chans, workersCount := s.workersCount + 1, senders := s.senders + [Sender(ch, Conn(s.accepted))],
       accepted := s.accepted + 1)
  }

  function SendOne(s: State, i: nat): State
    requires i < |s.senders| && s.senders[i].ch < |s.chans|
  {
    var snd := s.senders[i];
    s.(senders := s.senders[..i] + s.senders[i + 1..],
       chans := s.chans[snd.ch := s.chans[snd.ch].(buf := Some(snd.msg))])
  }

  function ReceiveOne(s: State, ch: nat): State
    requires ch < |s.chans| && s.chans[ch].buf.Some?
  {
    var msg := s.chans[ch].buf.value;
    s.(chans := s.chans[ch := Chan(if msg.Conn? then Serving(msg.c) else Leaving, None)])
  }

  function FinishOne(s: State, ch: nat): State
    requires ch < |s.chans| && s.chans[ch].worker.Serving?
  {
    var c := s.chans[ch].worker.c;
    SetWorker(s, ch, Served(c)).(done := s.done + [c])
  }

  function ReleaseOne(s: State, ch: nat): State
    requires ch < |s.chans|
  {
    if s.mustStop then SetWorker(s, ch, Leaving) else SetWorker(s, ch, Waiting).(ready := s.ready + [ch])
  }

  /** clean takes the worker that was idle longest; it will send it nil. */
  function CleanOne(s: State): State
    requires s.ready != []
  {
    s.(ready := s.ready[1..], senders := s.senders + [Sender(s.ready[0], Nil)])
  }

  function CleanMany(s: State, n: nat): State
    requires n <= |s.ready|
    decreases n
  {
    if n == 0 then s else CleanMany(CleanOne(s), n - 1)
  }

  /** Stop sends nil to an idle worker, under the lock. */
  function StopOne(s: State): State
    requires s.ready != [] && s.ready[0] < |s.chans|
  {
    s.(ready := s.ready[1..], chans := s.chans[s.ready[0] := s.chans[s.ready[0]].(buf := Some(Nil))])
  }

  function StopAll(s: State): State
    requires forall i :: 0 <= i < |s.ready| ==> s.ready[i] < |s.chans|
    decreases |s.ready|
  {
    if s.ready == [] then s.(mustStop := true) else StopAll(StopOne(s))
  }

  /** DefaultCleanThresholdFunc, on how long ago the workers a quarter, half and three quarters into ready were
      used. Its guard `readyLen <= 2>>10` is `readyLen <= 0`. It asks for at most half of the idle workers. */
  function DefaultCleanThreshold(age2: int, age3: int, age4: int, readyLen: nat, max: nat, maxIdle: int): (n: nat)
    ensures 2 * n <= readyLen
    ensures n > 0 ==> readyLen <= max && (age2 > maxIdle || age3 > maxIdle || age4 > maxIdle)
    ensures readyLen <= max && age3 > maxIdle && (2 * readyLen > max || (4 * readyLen > max && age2 <= maxIdle)) ==>
              readyLen < 2 * n + 2
    ensures 4 * readyLen <= max && age3 > maxIdle ==> 4 * n <= readyLen < 4 * n + 4
    ensures 2 * readyLen <= max < 4 * readyLen && age2 > maxIdle ==> 4 * n <= readyLen < 4 * n + 4
    ensures 4 * readyLen <= max && age3 <= maxIdle && age4 > maxIdle ==> readyLen < 2 * n + 2
    ensures age3 <= maxIdle && 4 * readyLen > max && (2 * readyLen > max || age2 <= maxIdle) ==> n == 0
    ensures age3 <= maxIdle && age4 <= maxIdle && 4 * readyLen <= max ==> n == 0
  {
    if readyLen == 0 then 0
    else if readyLen <= max / 4 then (if age3 > maxIdle then readyLen / 4 else if age4 > maxIdle then readyLen / 2 else 0)
    else if readyLen <= max / 2 then (if age2 > maxIdle then readyLen / 4 else if age3 > maxIdle then readyLen / 2 else 0)
    else if readyLen <= max && age3 > maxIdle then readyLen / 2
    else 0
  }

  predicate InRange(s: State)
  {
    && (forall i :: 0 <= i < |s.ready| ==> s.ready[i] < |s.chans|)
    && (forall i :: 0 <= i < |s.senders| ==> s.senders[i].ch < |s.chans|)
  }

  /** A step that its goroutine can take now. A send waits for room in the channel, a receive for a message; Serve
      with no idle worker at the limit is refused and changes nothing; the callback of clean asks for no more
      workers than are idle. */
  predicate Enabled(s: State, max: nat, l: Label)
  {
    InRange(s) &&
    match l
    case Serve(ch) => s.ready != [] || (s.workersCount < max && ch <= |s.chans| && (ch < |s.chans| ==> s.chans[ch].worker.Absent?))
    case Send(i) => i < |s.senders| && s.chans[s.senders[i].ch].buf.None?
    case Receive(ch) => ch < |s.chans| && s.chans[ch].worker.Waiting? && s.chans[ch].buf.Some?
    case Finish(ch) => ch < |s.chans| && s.chans[ch].worker.Serving?
    case Release(ch) => ch < |s.chans| && s.chans[ch].worker.Served?
    case Exit(ch) => ch < |s.chans| && s.chans[ch].worker.Leaving?
    case Recycle(ch) => ch < |s.chans| && s.chans[ch].worker.Ended?
    case Clean(n) => n <= |s.ready|
    case Stop => true
  }

  function Apply(s: State, max: nat, l: Label): State
    requires Enabled(s, max, l)
  {
    match l
    case Serve(ch) => if s.ready != [] then ServeReady(s) else ServeNew(s, ch)
    case Send(i) => SendOne(s, i)
    case Receive(ch) => ReceiveOne(s, ch)
    case Finish(ch) => FinishOne(s, ch)
    case Release(ch) => ReleaseOne(s, ch)
    case Exit(ch) => SetWorker(s, ch, Ended).(workersCount := s.workersCount - 1)
    case Recycle(ch) => SetWorker(s, ch, Absent)
    case Clean(n) => CleanMany(s, n)
    case Stop => StopAll(s)
  }

  /** The state after a list of steps; one that is not enabled is not taken. */
  function Run(max: nat, labels: seq<Label>): State
  {
    if labels == [] then START
    else
      var s, l := Run(max, labels[..|labels| - 1]), labels[|labels| - 1];
      if Enabled(s, max, l) then Apply(s, max, l) else s
  }

  // ---- what is counted ----

  function Same(ch: nat): nat -> int
  {
    (x: nat) => if x == ch then 1 else 0
  }

  function ToChan(ch: nat): Sender -> int
  {
    (x: Sender) => if x.ch == ch then 1 else 0
  }

  function Brings(c: nat): Sender -> int
  {
    (x: Sender) => if x.msg == Conn(c) then 1 else 0
  }

  function Holds(c: nat): Chan -> int
  {
    (x: Chan) => (if x.buf == Some(Conn(c)) then 1 else 0) + (if x.worker == Serving(c) then 1 else 0)
  }

  function Live(x: Chan): int
  {
    if x.worker.Absent? || x.worker.Ended? then 0 else 1
  }

  /** Waiting, with nothing in the channel: in ready, or about to be sent something. */
  function Idle(x: Chan): int
  {
    if x == Chan(Waiting, None) then 1 else 0
  }

  /** Serving a connection, or with one in its channel. */
  function Busy(x: Chan): int
  {
    if x.worker.Serving? || x.worker.Served? || (x.worker.Waiting? && x.buf.Some? && x.buf.value.Conn?) then 1 else 0
  }

  /** With nil in its channel, or out of its loop. */
  function Exiting(x: Chan): int
  {
    if x.worker.Leaving? || (x.worker.Waiting? && x.buf == Some(Nil)) then 1 else 0
  }

  /** Messages sent and to be sent on a channel, and the right of whoever takes it from ready to send one. */
  ghost function Tokens(s: State, ch: nat): int
  {
    Count(s.ready, Same(ch)) + Count(s.senders, ToChan(ch)) + if ch < |s.chans| && s.chans[ch].buf.Some? then 1 else 0
  }

  /** Exactly one for a worker that waits, none for any other. */
  ghost predicate TokenOk(s: State, ch: nat)
  {
    Tokens(s, ch) == if ch < |s.chans| && s.chans[ch].worker.Waiting? then 1 else 0
  }

  /** Where a connection is: on its way, in a channel, being served, or done. */
  ghost function Places(s: State, c: nat): int
  {
    Count(s.senders, Brings(c)) + Count(s.chans, Holds(c)) + Count(s.done, Same(c))
  }

  ghost predicate ConnOk(s: State, c: nat)
  {
    Places(s, c) == if c < s.accepted then 1 else 0
  }

  ghost predicate Inv(s: State, max: nat)
  {
    && (forall ch: nat :: TokenOk(s, ch))
    && (forall c: nat :: ConnOk(s, c))
    && Count(s.chans, Live) == s.workersCount <= max
    && Count(s.chans, Idle) == |s.ready| + |s.senders|
    && (s.mustStop ==> s.ready == [])
  }
}
