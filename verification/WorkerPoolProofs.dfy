/** What every run of the worker pool keeps. */
module WorkerPoolProofs {
  import opened Ledger
  import opened WorkerPool

  lemma CountPop<T>(s: seq<T>, weight: T -> int)
    requires s != []
    ensures Count(s[..|s| - 1], weight) == Count(s, weight) - weight(s[|s| - 1])
  {
  }

  lemma CountShift<T>(s: seq<T>, weight: T -> int)
    requires s != []
    ensures Count(s[1..], weight) == Count(s, weight) - weight(s[0])
  {
    CountRemove(s, 0, weight);
    assert s[..0] + s[1..] == s[1..];
  }

  lemma TokensNonNegative(s: State, ch: nat)
    ensures Count(s.ready, Same(ch)) >= 0 && Count(s.senders, ToChan(ch)) >= 0
  {
    CountNonNegative(s.ready, Same(ch));
    CountNonNegative(s.senders, ToChan(ch));
  }

  /** A channel in ready has a waiting worker and nothing in it. */
  lemma ReadyIsIdle(s: State, max: nat, i: nat)
    requires Inv(s, max) && i < |s.ready|
    ensures s.ready[i] < |s.chans| && s.chans[s.ready[i]] == Chan(Waiting, None)
    ensures Count(s.senders, ToChan(s.ready[i])) == 0 && Count(s.ready, Same(s.ready[i])) == 1
  {
    hide Count;
    var ch := s.ready[i];
    assert TokenOk(s, ch);
    CountMember(s.ready, i, Same(ch));
    TokensNonNegative(s, ch);
  }

  /** A channel that somebody is about to send on has a waiting worker and nothing in it: no send ever blocks. */
  lemma SenderHasRoom(s: State, max: nat, i: nat)
    requires Inv(s, max) && i < |s.senders|
    ensures s.senders[i].ch < |s.chans| && s.chans[s.senders[i].ch] == Chan(Waiting, None)
    ensures Count(s.senders, ToChan(s.senders[i].ch)) == 1 && Count(s.ready, Same(s.senders[i].ch)) == 0
  {
    hide Count;
    var ch := s.senders[i].ch;
    assert TokenOk(s, ch);
    CountMember(s.senders, i, ToChan(ch));
    TokensNonNegative(s, ch);
  }

  lemma InvInRange(s: State, max: nat)
    requires Inv(s, max)
    ensures InRange(s)
  {
    hide Inv;
    forall i | 0 <= i < |s.ready|
      ensures s.ready[i] < |s.chans|
    {
      ReadyIsIdle(s, max, i);
    }
    forall i | 0 <= i < |s.senders|
      ensures s.senders[i].ch < |s.chans|
    {
      SenderHasRoom(s, max, i);
    }
  }

  // ---- one step each ----

  lemma KeepServeReady(s: State, max: nat)
    requires Inv(s, max) && s.ready != []
    ensures Inv(ServeReady(s), max)
  {
    hide Count;
    var s' := ServeReady(s);
    var snd := s'.senders[|s.senders|];
    forall ch: nat
      ensures TokenOk(s', ch)
    {
      assert TokenOk(s, ch);
      CountPop(s.ready, Same(ch));
      CountPush(s.senders, snd, ToChan(ch));
    }
    forall c: nat
      ensures ConnOk(s', c)
    {
      assert ConnOk(s, c);
      CountPush(s.senders, snd, Brings(c));
    }
  }

  lemma KeepServeNew(s: State, max: nat, ch: nat)
    requires Inv(s, max) && s.ready == [] && s.workersCount < max
    requires ch <= |s.chans| && (ch < |s.chans| ==> s.chans[ch].worker.Absent?)
    ensures Inv(ServeNew(s, ch), max)
  {
    hide Count;
    var s' := ServeNew(s, ch);
    var snd := s'.senders[|s.senders|];
    assert TokenOk(s, ch);
    TokensNonNegative(s, ch);
    forall k: nat
      ensures TokenOk(s', k)
    {
      assert TokenOk(s, k);
      CountPush(s.senders, snd, ToChan(k));
    }
    forall c: nat
      ensures ConnOk(s', c)
    {
      assert ConnOk(s, c);
      CountPush(s.senders, snd, Brings(c));
      ChanAdded(s, ch, Holds(c));
    }
    ChanAdded(s, ch, Live);
    ChanAdded(s, ch, Idle);
  }

  lemma ChanAdded(s: State, ch: nat, weight: Chan -> int)
    requires ch <= |s.chans|
    ensures var x := Chan(Waiting, if ch < |s.chans| then s.chans[ch].buf else None);
            Count(ServeNew(s, ch).chans, weight) ==
            Count(s.chans, weight) + weight(x) - if ch < |s.chans| then weight(s.chans[ch]) else 0
  {
    if ch < |s.chans| {
      CountUpdate(s.chans, ch, s.chans[ch].(worker := Waiting), weight);
    } else {
      CountPush(s.chans, Chan(Waiting, None), weight);
    }
  }

  lemma KeepSend(s: State, max: nat, i: nat)
    requires Inv(s, max) && i < |s.senders|
    ensures s.senders[i].ch < |s.chans| && Inv(SendOne(s, i), max)
  {
    hide Count;
    SenderHasRoom(s, max, i);
    var s', snd := SendOne(s, i), s.senders[i];
    var x := s.chans[snd.ch].(buf := Some(snd.msg));
    forall k: nat
      ensures TokenOk(s', k)
    {
      assert TokenOk(s, k);
      CountRemove(s.senders, i, ToChan(k));
    }
    forall c: nat
      ensures ConnOk(s', c)
    {
      assert ConnOk(s, c);
      CountRemove(s.senders, i, Brings(c));
      CountUpdate(s.chans, snd.ch, x, Holds(c));
    }
    CountUpdate(s.chans, snd.ch, x, Live);
    CountUpdate(s.chans, snd.ch, x, Idle);
  }

  /** A step that changes one channel, and perhaps the count, the log or ready. */
  lemma KeepChan(s: State, s': State, max: nat, ch: nat, x: Chan)
    requires Inv(s, max) && ch < |s.chans|
    requires s'.chans == s.chans[ch := x] && s'.senders == s.senders && s'.accepted == s.accepted
    requires s'.workersCount == s.workersCount - Live(s.chans[ch]) + Live(x) <= max
    requires |s'.ready| == |s.ready| - Idle(s.chans[ch]) + Idle(x)
    requires s'.mustStop == s.mustStop && (s'.mustStop ==> s'.ready == [])
    requires forall k: nat :: TokenOk(s', k)
    requires forall c: nat :: Count(s'.done, Same(c)) + Holds(c)(x) == Count(s.done, Same(c)) + Holds(c)(s.chans[ch])
    ensures Inv(s', max)
  {
    hide Count;
    forall c: nat
      ensures ConnOk(s', c)
    {
      assert ConnOk(s, c);
      CountUpdate(s.chans, ch, x, Holds(c));
    }
    CountUpdate(s.chans, ch, x, Live);
    CountUpdate(s.chans, ch, x, Idle);
  }

  lemma KeepReceive(s: State, max: nat, ch: nat)
    requires Inv(s, max) && ch < |s.chans| && s.chans[ch].worker.Waiting? && s.chans[ch].buf.Some?
    ensures Inv(ReceiveOne(s, ch), max)
  {
    hide Count;
    var s' := ReceiveOne(s, ch);
    forall k: nat
      ensures TokenOk(s', k)
    {
      assert TokenOk(s, k);
    }
    KeepChan(s, s', max, ch, s'.chans[ch]);
  }

  lemma KeepFinish(s: State, max: nat, ch: nat)
    requires Inv(s, max) && ch < |s.chans| && s.chans[ch].worker.Serving?
    ensures Inv(FinishOne(s, ch), max)
  {
    hide Count;
    var s' := FinishOne(s, ch);
    forall k: nat
      ensures TokenOk(s', k)
    {
      assert TokenOk(s, k);
    }
    forall c: nat
      ensures Count(s'.done, Same(c)) + Holds(c)(s'.chans[ch]) == Count(s.done, Same(c)) + Holds(c)(s.chans[ch])
    {
      CountPush(s.done, s.chans[ch].worker.c, Same(c));
    }
    KeepChan(s, s', max, ch, s'.chans[ch]);
  }

  lemma KeepRelease(s: State, max: nat, ch: nat)
    requires Inv(s, max) && ch < |s.chans| && s.chans[ch].worker.Served?
    ensures Inv(ReleaseOne(s, ch), max)
  {
    hide Count;
    var s' := ReleaseOne(s, ch);
    assert TokenOk(s, ch);
    TokensNonNegative(s, ch);
    forall k: nat
      ensures TokenOk(s', k)
    {
      assert TokenOk(s, k);
      CountPush(s.ready, ch, Same(k));
    }
    KeepChan(s, s', max, ch, s'.chans[ch]);
  }

  lemma KeepExit(s: State, max: nat, ch: nat)
    requires Inv(s, max) && ch < |s.chans| && s.chans[ch].worker.Leaving?
    ensures Inv(SetWorker(s, ch, Ended).(workersCount := s.workersCount - 1), max)
  {
    hide Count;
    var s' := SetWorker(s, ch, Ended).(workersCount := s.workersCount - 1);
    forall k: nat
      ensures TokenOk(s', k)
    {
      assert TokenOk(s, k);
    }
    KeepChan(s, s', max, ch, s'.chans[ch]);
  }

  lemma KeepRecycle(s: State, max: nat, ch: nat)
    requires Inv(s, max) && ch < |s.chans| && s.chans[ch].worker.Ended?
    ensures Inv(SetWorker(s, ch, Absent), max)
  {
    hide Count;
    var s' := SetWorker(s, ch, Absent);
    forall k: nat
      ensures TokenOk(s', k)
    {
      assert TokenOk(s, k);
    }
    KeepChan(s, s', max, ch, s'.chans[ch]);
  }

  lemma KeepCleanOne(s: State, max: nat)
    requires Inv(s, max) && s.ready != []
    ensures Inv(CleanOne(s), max)
  {
    hide Count;
    var s' := CleanOne(s);
    var snd := s'.senders[|s.senders|];
    forall ch: nat
      ensures TokenOk(s', ch)
    {
      assert TokenOk(s, ch);
      CountShift(s.ready, Same(ch));
      CountPush(s.senders, snd, ToChan(ch));
    }
    forall c: nat
      ensures ConnOk(s', c)
    {
      assert ConnOk(s, c);
      CountPush(s.senders, snd, Brings(c));
    }
  }

  lemma {:induction false} KeepCleanMany(s: State, max: nat, n: nat)
    requires Inv(s, max) && n <= |s.ready|
    ensures Inv(CleanMany(s, n), max)
    decreases n
  {
    hide Inv;
    if n > 0 {
      KeepCleanOne(s, max);
      KeepCleanMany(CleanOne(s), max, n - 1);
    }
  }

  lemma KeepStopOne(s: State, max: nat)
    requires Inv(s, max) && s.ready != []
    ensures s.ready[0] < |s.chans| && Inv(StopOne(s), max)
  {
    hide Count;
    ReadyIsIdle(s, max, 0);
    var s', ch := StopOne(s), s.ready[0];
    forall k: nat
      ensures TokenOk(s', k)
    {
      assert TokenOk(s, k);
      CountShift(s.ready, Same(k));
    }
    KeepChan(s, s', max, ch, s'.chans[ch]);
  }

  lemma {:induction false} KeepStopAll(s: State, max: nat)
    requires Inv(s, max)
    ensures InRange(s) && Inv(StopAll(s), max) && StopAll(s).mustStop
    decreases |s.ready|
  {
    InvInRange(s, max);
    if s.ready == [] {
      StopFlag(s, max);
    } else {
      KeepStopOne(s, max);
      KeepStopAll(StopOne(s), max);
    }
  }

  lemma StopFlag(s: State, max: nat)
    requires Inv(s, max) && s.ready == []
    ensures Inv(s.(mustStop := true), max)
  {
    hide Count;
    var s' := s.(mustStop := true);
    forall k: nat
      ensures TokenOk(s', k)
    {
      assert TokenOk(s, k);
    }
    forall c: nat
      ensures ConnOk(s', c)
    {
      assert ConnOk(s, c);
    }
  }

  lemma KeepApply(s: State, max: nat, l: Label)
    requires Inv(s, max) && Enabled(s, max, l)
    ensures Inv(Apply(s, max, l), max)
  {
    hide Inv, ServeReady, ServeNew, SendOne, ReceiveOne, FinishOne, ReleaseOne, SetWorker, CleanMany, StopAll;
    match l
    case Serve(ch) =>
      if s.ready != [] {
        KeepServeReady(s, max);
      } else {
        KeepServeNew(s, max, ch);
      }
    case Send(i) => KeepSend(s, max, i);
    case Receive(ch) => KeepReceive(s, max, ch);
    case Finish(ch) => KeepFinish(s, max, ch);
    case Release(ch) => KeepRelease(s, max, ch);
    case Exit(ch) => KeepExit(s, max, ch);
    case Recycle(ch) => KeepRecycle(s, max, ch);
    case Clean(n) => KeepCleanMany(s, max, n);
    case Stop => KeepStopAll(s, max);
  }

  /** In every interleaving of Serve, worker steps, clean and Stop. */
  lemma {:induction false} EveryRun(max: nat, labels: seq<Label>)
    ensures Inv(Run(max, labels), max)
  {
    hide Inv, Apply, Enabled;
    if labels == [] {
      StartOk(max);
    } else {
      var s, l := Run(max, labels[..|labels| - 1]), labels[|labels| - 1];
      EveryRun(max, labels[..|labels| - 1]);
      if Enabled(s, max, l) {
        KeepApply(s, max, l);
      }
    }
  }

  lemma StartOk(max: nat)
    ensures Inv(START, max)
  {
    forall k: nat
      ensures TokenOk(START, k) && ConnOk(START, k)
    {
    }
  }

  // ---- what it means ----

  lemma {:induction false} CountSum<T>(s: seq<T>, a: T -> int, b: T -> int, c: T -> int, d: T -> int)
    requires forall x :: a(x) == b(x) + c(x) + d(x)
    ensures Count(s, a) == Count(s, b) + Count(s, c) + Count(s, d)
  {
    if s != [] {
      CountSum(s[..|s| - 1], a, b, c, d);
    }
  }

  /** workersCount is the number of workers in ready, of those about to be sent something, of the busy and of those
      told to stop or on their way out; it stays within the limit. After Stop ready is empty for good. */
  lemma WorkersConserved(max: nat, labels: seq<Label>)
    ensures var s := Run(max, labels);
            && s.workersCount == |s.ready| + |s.senders| + Count(s.chans, Busy) + Count(s.chans, Exiting)
            && s.workersCount <= max && (s.mustStop ==> s.ready == [])
  {
    hide Count, Run;
    EveryRun(max, labels);
    var s := Run(max, labels);
    assert forall x :: Live(x) == Idle(x) + Busy(x) + Exiting(x) by {
      forall x: Chan
        ensures Live(x) == Idle(x) + Busy(x) + Exiting(x)
      {
        LiveParts(x);
      }
    }
    CountSum(s.chans, Live, Idle, Busy, Exiting);
  }

  lemma LiveParts(x: Chan)
    ensures Live(x) == Idle(x) + Busy(x) + Exiting(x)
  {
  }

  /** Once stopped, stopped. */
  lemma StopIsFinal(s: State, max: nat, l: Label)
    requires Inv(s, max) && Enabled(s, max, l) && s.mustStop
    ensures Apply(s, max, l).mustStop && Apply(s, max, l).ready == []
  {
    hide Count;
    KeepApply(s, max, l);
    if l.Clean? {
      assert CleanMany(s, 0) == s;
    }
  }

  /** No channel appears twice in ready. A channel in ready, or one that somebody is about to send on, is empty, has a
      waiting worker and nobody else about to send; a recycled channel is empty, with nobody about to send. */
  lemma ChannelsAreExclusive(max: nat, labels: seq<Label>)
    ensures var s := Run(max, labels);
            && (forall i, j :: 0 <= i < j < |s.ready| ==> s.ready[i] != s.ready[j])
            && (forall i, j :: 0 <= i < j < |s.senders| ==> s.senders[i].ch != s.senders[j].ch)
            && (forall i, j :: 0 <= i < |s.ready| && 0 <= j < |s.senders| ==> s.ready[i] != s.senders[j].ch)
            && (forall i :: 0 <= i < |s.ready| ==> s.ready[i] < |s.chans| && s.chans[s.ready[i]] == Chan(Waiting, None))
            && (forall i :: 0 <= i < |s.senders| ==>
                  s.senders[i].ch < |s.chans| && s.chans[s.senders[i].ch] == Chan(Waiting, None))
            && (forall ch :: 0 <= ch < |s.chans| && !s.chans[ch].worker.Waiting? ==> s.chans[ch].buf.None?)
  {
    hide Count, Run;
    EveryRun(max, labels);
    var s := Run(max, labels);
    forall i | 0 <= i < |s.ready|
      ensures s.ready[i] < |s.chans| && s.chans[s.ready[i]] == Chan(Waiting, None)
      ensures forall j :: i < j < |s.ready| ==> s.ready[i] != s.ready[j]
      ensures forall j :: 0 <= j < |s.senders| ==> s.ready[i] != s.senders[j].ch
    {
      ReadyAlone(s, max, i);
    }
    forall i | 0 <= i < |s.senders|
      ensures s.senders[i].ch < |s.chans| && s.chans[s.senders[i].ch] == Chan(Waiting, None)
      ensures forall j :: i < j < |s.senders| ==> s.senders[i].ch != s.senders[j].ch
    {
      SenderAlone(s, max, i);
    }
    forall ch | 0 <= ch < |s.chans| && !s.chans[ch].worker.Waiting?
      ensures s.chans[ch].buf.None?
    {
      assert TokenOk(s, ch);
      TokensNonNegative(s, ch);
    }
  }

  lemma ReadyAlone(s: State, max: nat, i: nat)
    requires Inv(s, max) && i < |s.ready|
    ensures s.ready[i] < |s.chans| && s.chans[s.ready[i]] == Chan(Waiting, None)
    ensures forall j :: i < j < |s.ready| ==> s.ready[i] != s.ready[j]
    ensures forall j :: 0 <= j < |s.senders| ==> s.ready[i] != s.senders[j].ch
  {
    hide Count, Inv;
    var ch := s.ready[i];
    ReadyIsIdle(s, max, i);
    forall j | i < j < |s.ready|
      ensures ch != s.ready[j]
    {
      CountTwo(s.ready, i, j, Same(ch));
    }
    forall j | 0 <= j < |s.senders|
      ensures ch != s.senders[j].ch
    {
      CountMember(s.senders, j, ToChan(ch));
    }
  }

  lemma SenderAlone(s: State, max: nat, i: nat)
    requires Inv(s, max) && i < |s.senders|
    ensures s.senders[i].ch < |s.chans| && s.chans[s.senders[i].ch] == Chan(Waiting, None)
    ensures forall j :: i < j < |s.senders| ==> s.senders[i].ch != s.senders[j].ch
  {
    hide Count, Inv;
    var ch := s.senders[i].ch;
    SenderHasRoom(s, max, i);
    forall j | i < j < |s.senders|
      ensures ch != s.senders[j].ch
    {
      CountTwo(s.senders, i, j, ToChan(ch));
    }
  }

  /** Every accepted connection is in exactly one place: on its way to a waiting worker, in its channel, with one
      worker, or done; nothing is served twice, and nothing that was not accepted is served. */
  lemma ServedOnce(max: nat, labels: seq<Label>)
    ensures var s := Run(max, labels);
            && (forall c: nat :: Places(s, c) == if c < s.accepted then 1 else 0)
            && (forall i, j :: 0 <= i < j < |s.done| ==> s.done[i] != s.done[j])
            && (forall i :: 0 <= i < |s.done| ==> s.done[i] < s.accepted)
            && (forall i, ch :: 0 <= i < |s.done| && 0 <= ch < |s.chans| ==> s.chans[ch].worker != Serving(s.done[i]))
            && (forall a, b :: 0 <= a < b < |s.chans| && s.chans[a].worker.Serving? ==> s.chans[a].worker != s.chans[b].worker)
  {
    hide Count, Run;
    EveryRun(max, labels);
    var s := Run(max, labels);
    forall c: nat
      ensures Places(s, c) == if c < s.accepted then 1 else 0
    {
      assert ConnOk(s, c);
    }
    forall i | 0 <= i < |s.done|
      ensures s.done[i] < s.accepted
      ensures forall j :: i < j < |s.done| ==> s.done[i] != s.done[j]
      ensures forall ch :: 0 <= ch < |s.chans| ==> s.chans[ch].worker != Serving(s.done[i])
    {
      DoneAlone(s, max, i);
    }
    forall a, b | 0 <= a < b < |s.chans| && s.chans[a].worker.Serving?
      ensures s.chans[a].worker != s.chans[b].worker
    {
      ServingAlone(s, max, a, b);
    }
  }

  lemma PlacesNonNegative(s: State, c: nat)
    ensures Count(s.senders, Brings(c)) >= 0 && Count(s.chans, Holds(c)) >= 0 && Count(s.done, Same(c)) >= 0
  {
    CountNonNegative(s.senders, Brings(c));
    CountNonNegative(s.chans, Holds(c));
    CountNonNegative(s.done, Same(c));
  }

  lemma DoneAlone(s: State, max: nat, i: nat)
    requires Inv(s, max) && i < |s.done|
    ensures s.done[i] < s.accepted
    ensures forall j :: i < j < |s.done| ==> s.done[i] != s.done[j]
    ensures forall ch :: 0 <= ch < |s.chans| ==> s.chans[ch].worker != Serving(s.done[i])
  {
    hide Count;
    var c := s.done[i];
    assert ConnOk(s, c);
    PlacesNonNegative(s, c);
    CountMember(s.done, i, Same(c));
    forall j | i < j < |s.done|
      ensures c != s.done[j]
    {
      CountTwo(s.done, i, j, Same(c));
    }
    forall ch | 0 <= ch < |s.chans|
      ensures s.chans[ch].worker != Serving(c)
    {
      CountMember(s.chans, ch, Holds(c));
    }
  }

  lemma ServingAlone(s: State, max: nat, a: nat, b: nat)
    requires Inv(s, max) && a < b < |s.chans| && s.chans[a].worker.Serving?
    ensures s.chans[a].worker != s.chans[b].worker
  {
    hide Count;
    var c := s.chans[a].worker.c;
    assert ConnOk(s, c);
    PlacesNonNegative(s, c);
    CountTwo(s.chans, a, b, Holds(c));
  }

  // ---- who is chosen ----

  /** The step of a run with which the worker on ch last became idle, or -1. */
  function ReleasedAt(max: nat, labels: seq<Label>, ch: nat): int
  {
    if labels == [] then -1
    else
      var front, l := labels[..|labels| - 1], labels[|labels| - 1];
      if l == Release(ch) && Enabled(Run(max, front), max, l) && !Run(max, front).mustStop then |labels| - 1
      else ReleasedAt(max, front, ch)
  }

  function Released(max: nat, labels: seq<Label>): nat -> int
  {
    (ch: nat) => ReleasedAt(max, labels, ch)
  }

  /** A step takes workers off one end of ready, or puts one that was released at its end. */
  lemma ReadyStep(s: State, max: nat, l: Label) returns (lo: nat, hi: nat)
    requires Enabled(s, max, l)
    ensures lo <= hi <= |s.ready|
    ensures Apply(s, max, l).ready == if l.Release? && !s.mustStop then s.ready + [l.ch] else s.ready[lo..hi]
  {
    hide CleanMany, StopAll;
    lo, hi := 0, |s.ready|;
    assert s.ready[0..|s.ready|] == s.ready;
    match l
    case Serve(_) => if s.ready != [] { hi := hi - 1; }
    case Clean(n) =>
      CleanTakesLongestIdle(s, n);
      lo := n;
    case Stop =>
      StopEmpties(s);
      lo := hi;
    case _ =>
  }

  lemma {:induction false} StopEmpties(s: State)
    requires forall i :: 0 <= i < |s.ready| ==> s.ready[i] < |s.chans|
    ensures StopAll(s).ready == []
    decreases |s.ready|
  {
    if s.ready != [] { StopEmpties(StopOne(s)); }
  }

  /** In every run ready is in the order in which its workers were last released. */
  lemma {:induction false} ReadyInOrder(max: nat, labels: seq<Label>)
    ensures Ascending(Run(max, labels).ready, Released(max, labels), |labels|)
  {
    if labels != [] {
      hide Apply, Enabled, Ascending, Released;
      var front, l := labels[..|labels| - 1], labels[|labels| - 1];
      var s := Run(max, front);
      ReadyInOrder(max, front);
      var lo, hi := 0, |s.ready|;
      if Enabled(s, max, l) {
        lo, hi := ReadyStep(s, max, l);
      } else {
        assert s.ready[lo..hi] == s.ready;
      }
      ReleaseOrder(max, labels, lo, hi);
    }
  }

  lemma ReleaseOrder(max: nat, labels: seq<Label>, lo: nat, hi: nat)
    requires labels != []
    requires var front, l := labels[..|labels| - 1], labels[|labels| - 1];
             var was, now := Run(max, front), Run(max, labels).ready;
             && Ascending(was.ready, Released(max, front), |front|) && lo <= hi <= |was.ready|
             && now == if Enabled(was, max, l) && l.Release? && !was.mustStop then was.ready + [l.ch] else was.ready[lo..hi]
    ensures Ascending(Run(max, labels).ready, Released(max, labels), |labels|)
  {
    hide Run, Enabled, Ascending;
    var front, l := labels[..|labels| - 1], labels[|labels| - 1];
    var was := Run(max, front);
    var at, at' := Released(max, front), Released(max, labels);
    if Enabled(was, max, l) && l.Release? && !was.mustStop {
      ReleasedIsNew(max, front, l.ch);
      AscendingPush(was.ready, l.ch, at, at', |front|);
    } else {
      AscendingSlice(was.ready, at, at', |front|, lo, hi);
    }
  }

  lemma ReleasedIsNew(max: nat, labels: seq<Label>, ch: nat)
    requires Enabled(Run(max, labels), max, Release(ch))
    ensures ch !in Run(max, labels).ready
  {
    hide Run;
    ChannelsAreExclusive(max, labels);
  }

  /** In every run, when a connection comes and workers are idle, it goes to the one that was released last, and the others
      keep their places. */
  lemma LastReleasedServesNext(max: nat, labels: seq<Label>, pooled: nat)
    requires Run(max, labels).ready != []
    ensures Enabled(Run(max, labels), max, Serve(pooled))
    ensures var s := Run(max, labels);
            var s', n := Apply(s, max, Serve(pooled)), |s.ready| - 1;
            && s'.ready == s.ready[..n] && s'.senders == s.senders + [Sender(s.ready[n], Conn(s.accepted))]
            && forall i :: 0 <= i < n ==> ReleasedAt(max, labels, s.ready[i]) < ReleasedAt(max, labels, s.ready[n])
  {
    hide Run, Inv, ReleasedAt;
    EveryRun(max, labels);
    InvInRange(Run(max, labels), max);
    ReadyInOrder(max, labels);
  }

  /** In every run, the n workers that clean tells to stop have all been idle longer than those it leaves. */
  lemma CleanedWereIdleLongest(max: nat, labels: seq<Label>, n: nat)
    requires n <= |Run(max, labels).ready|
    ensures Enabled(Run(max, labels), max, Clean(n))
    ensures var s := Run(max, labels);
            var s' := Apply(s, max, Clean(n));
            && s'.ready == s.ready[n..] && s'.senders == s.senders + NilTo(s.ready[..n])
            && forall i, j :: 0 <= i < n <= j < |s.ready| ==>
                 ReleasedAt(max, labels, s.ready[i]) < ReleasedAt(max, labels, s.ready[j])
  {
    hide Run, Inv, ReleasedAt, CleanMany, NilTo;
    EveryRun(max, labels);
    InvInRange(Run(max, labels), max);
    ReadyInOrder(max, labels);
    CleanTakesLongestIdle(Run(max, labels), n);
  }

  function NilTo(chs: seq<nat>): (r: seq<Sender>)
    ensures |r| == |chs| && forall i :: 0 <= i < |chs| ==> r[i] == Sender(chs[i], Nil)
  {
    seq(|chs|, i requires 0 <= i < |chs| => Sender(chs[i], Nil))
  }

  /** clean tells the n workers that have been in ready longest to stop, each once, and no other. */
  lemma {:induction false} CleanTakesLongestIdle(s: State, n: nat)
    requires n <= |s.ready|
    ensures CleanMany(s, n) == s.(ready := s.ready[n..], senders := s.senders + NilTo(s.ready[..n]))
    decreases n
  {
    hide NilTo;
    if n == 0 {
      assert s.ready[0..] == s.ready && s.senders + NilTo(s.ready[..0]) == s.senders;
    } else {
      CleanTakesLongestIdle(CleanOne(s), n - 1);
      NilToFirst(s.ready, n, s.senders);
    }
  }

  lemma NilToFirst(ready: seq<nat>, n: nat, senders: seq<Sender>)
    requires 0 < n <= |ready|
    ensures ready[1..][n - 1..] == ready[n..]
    ensures senders + [Sender(ready[0], Nil)] + NilTo(ready[1..][..n - 1]) == senders + NilTo(ready[..n])
  {
    hide NilTo;
    var rest := ready[1..][..n - 1];
    assert ready[..n] == [ready[0]] + rest;
    assert NilTo(ready[..n]) == [Sender(ready[0], Nil)] + NilTo(rest);
  }

  /** Stop puts nil into the channel of every idle worker and touches no other channel. */
  lemma {:induction false} StopTellsAllIdle(s: State, max: nat)
    requires Inv(s, max)
    ensures InRange(s) && |StopAll(s).chans| == |s.chans| && StopAll(s).ready == []
    ensures forall ch :: 0 <= ch < |s.chans| ==>
              StopAll(s).chans[ch] == if ch in s.ready then Chan(Waiting, Some(Nil)) else s.chans[ch]
    decreases |s.ready|
  {
    hide Inv;
    InvInRange(s, max);
    if s.ready != [] {
      var s1, first := StopOne(s), s.ready[0];
      KeepStopOne(s, max);
      ReadyAlone(s, max, 0);
      StopTellsAllIdle(s1, max);
      assert s.ready == [first] + s1.ready;
    }
  }
}
