/** What the worker pool gets done, in every run: a connection is accepted whenever it can be, whatever was accepted is
    served, workers stay unless they are told to leave, and after Stop all of them leave. */
module WorkerPoolProgress {
  import opened Ledger
  import opened WorkerPool
  import opened WorkerPoolProofs

  // ---- accepting ----

  /** With no idle worker a connection is accepted if and only if there are fewer workers than the maximum. */
  lemma AcceptsExactly(max: nat, labels: seq<Label>)
    requires Run(max, labels).ready == []
    ensures (exists ch :: Enabled(Run(max, labels), max, Serve(ch))) <==> Run(max, labels).workersCount < max
  {
    hide Run, Inv;
    EveryRun(max, labels);
    var s := Run(max, labels);
    InvInRange(s, max);
    assert Enabled(s, max, Serve(|s.chans|)) <==> s.workersCount < max;
  }

  /** A new worker gets the connection, on an empty channel that nobody else is about to send on; nothing else changes. */
  lemma NewWorkerServes(max: nat, labels: seq<Label>, ch: nat)
    requires Run(max, labels).ready == [] && Enabled(Run(max, labels), max, Serve(ch))
    ensures var s := Run(max, labels);
            var s' := Apply(s, max, Serve(ch));
            && s'.accepted == s.accepted + 1 && s'.workersCount == s.workersCount + 1 && s'.ready == [] && s'.done == s.done
            && ch < |s'.chans| && s'.chans[ch] == Chan(Waiting, None)
            && s'.senders == s.senders + [Sender(ch, Conn(s.accepted))]
            && (forall i :: 0 <= i < |s.senders| ==> s.senders[i].ch != ch)
            && forall k :: 0 <= k < |s.chans| && k != ch ==> k < |s'.chans| && s'.chans[k] == s.chans[k]
  {
    hide Run, Inv;
    NextRun(max, labels, Serve(ch));
    ChannelsAreExclusive(max, labels + [Serve(ch)]);
    var s := Run(max, labels);
    var s' := Apply(s, max, Serve(ch));
    assert s'.senders[|s.senders|] == Sender(ch, Conn(s.accepted));
    assert forall i :: 0 <= i < |s.senders| ==> s'.senders[i] == s.senders[i];
  }

  lemma NextRun(max: nat, labels: seq<Label>, l: Label)
    ensures Run(max, labels + [l])
            == if Enabled(Run(max, labels), max, l) then Apply(Run(max, labels), max, l) else Run(max, labels)
  {
    assert (labels + [l])[..|labels|] == labels;
  }

  // ---- a worker that has served ----

  /** A worker that has served its connection is idle again, and the last of them; after Stop it leaves instead. */
  lemma ServedReturns(max: nat, labels: seq<Label>, ch: nat)
    requires var s := Run(max, labels); ch < |s.chans| && s.chans[ch].worker.Serving?
    ensures var s := Run(max, labels);
            var s' := Run(max, labels + [Finish(ch)] + [Release(ch)]);
            && s'.done == s.done + [s.chans[ch].worker.c] && s'.workersCount == s.workersCount && s'.accepted == s.accepted
            && |s'.chans| == |s.chans| && (forall k :: 0 <= k < |s.chans| && k != ch ==> s'.chans[k] == s.chans[k])
            && (if s.mustStop then s'.ready == s.ready && s'.chans[ch].worker == Leaving
                else s'.ready == s.ready + [ch] && s'.chans[ch] == Chan(Waiting, None))
  {
    hide Run, Inv;
    EveryRun(max, labels);
    InvInRange(Run(max, labels), max);
    ChannelsAreExclusive(max, labels);
    NextRun(max, labels, Finish(ch));
    NextRun(max, labels + [Finish(ch)], Release(ch));
  }

  /** Nobody has told a worker to leave. */
  ghost predicate Unasked(s: State)
  {
    && !s.mustStop
    && (forall i :: 0 <= i < |s.senders| ==> s.senders[i].msg != Nil)
    && (forall ch :: 0 <= ch < |s.chans| ==>
          s.chans[ch].buf != Some(Nil) && !s.chans[ch].worker.Leaving? && !s.chans[ch].worker.Ended?)
  }

  lemma UnaskedStep(s: State, max: nat, l: Label)
    requires Unasked(s) && Enabled(s, max, l) && !l.Clean? && !l.Stop?
    ensures Unasked(Apply(s, max, l)) && Apply(s, max, l).workersCount >= s.workersCount
  {
  }

  /** In every run without clean and Stop no worker leaves: workersCount never drops. */
  lemma {:induction false} NobodyLeavesUnasked(max: nat, labels: seq<Label>)
    requires forall i :: 0 <= i < |labels| ==> !labels[i].Clean? && !labels[i].Stop?
    ensures Unasked(Run(max, labels))
    ensures labels != [] ==> Run(max, labels).workersCount >= Run(max, labels[..|labels| - 1]).workersCount
  {
    hide Apply, Enabled, Unasked;
    if labels == [] {
      StartUnasked();
    } else {
      var front, l := labels[..|labels| - 1], labels[|labels| - 1];
      NobodyLeavesUnasked(max, front);
      if Enabled(Run(max, front), max, l) {
        UnaskedStep(Run(max, front), max, l);
      }
    }
  }

  lemma StartUnasked()
    ensures Unasked(START)
  {
  }

  // ---- everything accepted is served ----

  /** A step that needs neither a new connection nor clean nor Stop. */
  predicate Internal(l: Label)
  {
    l.Send? || l.Receive? || l.Finish? || l.Release? || l.Exit? || l.Recycle?
  }

  /** How many steps a channel and its worker can still take. */
  function Effort(x: Chan): int
  {
    (if x.buf.Some? then 5 else 0)
    + match x.worker
      case Absent => 0
      case Waiting => 0
      case Serving(_) => 4
      case Served(_) => 3
      case Leaving => 2
      case Ended => 1
  }

  ghost function Work(s: State): int
  {
    6 * |s.senders| + Count(s.chans, Effort)
  }

  lemma EffortUpdate(s: State, ch: nat, x: Chan)
    requires ch < |s.chans|
    ensures Count(s.chans[ch := x], Effort) == Count(s.chans, Effort) - Effort(s.chans[ch]) + Effort(x)
  {
    CountUpdate(s.chans, ch, x, Effort);
  }

  /** Every such step leaves less to do. */
  lemma WorkShrinks(s: State, max: nat, l: Label)
    requires Enabled(s, max, l) && Internal(l)
    ensures 0 <= Work(Apply(s, max, l)) < Work(s)
  {
    hide Count;
    CountNonNegative(s.chans, Effort);
    CountNonNegative(Apply(s, max, l).chans, Effort);
    match l
    case Send(i) =>
      var snd := s.senders[i];
      EffortUpdate(s, snd.ch, s.chans[snd.ch].(buf := Some(snd.msg)));
    case Receive(ch) =>
      var msg := s.chans[ch].buf.value;
      EffortUpdate(s, ch, Chan(if msg.Conn? then Serving(msg.c) else Leaving, None));
    case Finish(ch) => EffortUpdate(s, ch, s.chans[ch].(worker := Served(s.chans[ch].worker.c)));
    case Release(ch) => EffortUpdate(s, ch, s.chans[ch].(worker := if s.mustStop then Leaving else Waiting));
    case Exit(ch) => EffortUpdate(s, ch, s.chans[ch].(worker := Ended));
    case Recycle(ch) => EffortUpdate(s, ch, s.chans[ch].(worker := Absent));
    case _ =>
  }

  /** While there is something to do, some goroutine can do it. */
  lemma WorkGoesOn(max: nat, labels: seq<Label>) returns (l: Label)
    requires Work(Run(max, labels)) > 0
    ensures Internal(l) && Enabled(Run(max, labels), max, l)
  {
    hide Run, Inv;
    EveryRun(max, labels);
    var s := Run(max, labels);
    InvInRange(s, max);
    ChannelsAreExclusive(max, labels);
    if s.senders != [] {
      l := Send(0);
    } else {
      var ch := SomeEffort(s.chans);
      l := if s.chans[ch].buf.Some? then Receive(ch)
           else if s.chans[ch].worker.Serving? then Finish(ch)
           else if s.chans[ch].worker.Served? then Release(ch)
           else if s.chans[ch].worker.Leaving? then Exit(ch)
           else Recycle(ch);
    }
  }

  lemma {:induction false} SomeEffort(chans: seq<Chan>) returns (ch: nat)
    requires Count(chans, Effort) > 0
    ensures ch < |chans| && Effort(chans[ch]) > 0
  {
    if Effort(chans[|chans| - 1]) > 0 {
      ch := |chans| - 1;
    } else {
      ch := SomeEffort(chans[..|chans| - 1]);
    }
  }

  /** With nothing left to do everything accepted is done, the workers that are left are idle, and after Stop there are
      none. */
  ghost predicate AtRest(s: State)
  {
    && s.senders == [] && (forall c :: 0 <= c < s.accepted ==> c in s.done)
    && s.workersCount == |s.ready| && (s.mustStop ==> s.workersCount == 0)
  }

  lemma RestIsReached(max: nat, labels: seq<Label>)
    requires Work(Run(max, labels)) == 0
    ensures AtRest(Run(max, labels))
  {
    hide Run, Count;
    EveryRun(max, labels);
    var s := Run(max, labels);
    CountNonNegative(s.chans, Effort);
    forall ch | 0 <= ch < |s.chans|
      ensures s.chans[ch].buf.None? && (s.chans[ch].worker.Absent? || s.chans[ch].worker.Waiting?)
    {
      CountMember(s.chans, ch, Effort);
    }
    assert forall c :: 0 <= c < |s.chans| ==> Live(s.chans[c]) == Idle(s.chans[c]);
    SameCount(s.chans, Live, Idle);
    forall c: nat | c < s.accepted
      ensures c in s.done
    {
      assert ConnOk(s, c);
      NothingHeld(s.chans, c);
      NothingBrought(c);
      InDone(s.done, c);
    }
  }

  lemma {:induction false} SameCount(chans: seq<Chan>, f: Chan -> int, g: Chan -> int)
    requires forall i :: 0 <= i < |chans| ==> f(chans[i]) == g(chans[i])
    ensures Count(chans, f) == Count(chans, g)
  {
    if chans != [] {
      SameCount(chans[..|chans| - 1], f, g);
    }
  }

  lemma {:induction false} NothingHeld(chans: seq<Chan>, c: nat)
    requires forall i :: 0 <= i < |chans| ==> chans[i].buf.None? && !chans[i].worker.Serving?
    ensures Count(chans, Holds(c)) == 0
  {
    if chans != [] {
      NothingHeld(chans[..|chans| - 1], c);
    }
  }

  lemma NothingBrought(c: nat)
    ensures Count([], Brings(c)) == 0
  {
  }

  lemma {:induction false} InDone(done: seq<nat>, c: nat)
    requires Count(done, Same(c)) > 0
    ensures c in done
  {
    if done[|done| - 1] != c {
      InDone(done[..|done| - 1], c);
    }
  }

  /** From every state of every run, the goroutines that are there bring the pool to rest with at most Work steps of
      their own: every accepted connection is served and, after Stop, every worker has left. */
  lemma {:induction false} AllIsServed(max: nat, labels: seq<Label>) returns (more: seq<Label>)
    ensures |more| <= Work(Run(max, labels)) && forall i :: 0 <= i < |more| ==> Internal(more[i])
    ensures AtRest(Run(max, labels + more)) && Run(max, labels + more).accepted == Run(max, labels).accepted
    decreases Work(Run(max, labels))
  {
    hide Run, AtRest, Apply, Enabled, Work;
    WorkBounded(Run(max, labels));
    if Work(Run(max, labels)) == 0 {
      more := [];
      assert labels + more == labels;
      RestIsReached(max, labels);
    } else {
      var l := WorkGoesOn(max, labels);
      NextRun(max, labels, l);
      WorkShrinks(Run(max, labels), max, l);
      AcceptsNone(Run(max, labels), max, l);
      var rest := AllIsServed(max, labels + [l]);
      more := [l] + rest;
      assert labels + more == labels + [l] + rest;
    }
  }

  /** Stop can be called at any time, and whatever is going on then, the pool winds down: every accepted connection is
      served, and every worker leaves. */
  lemma StopEndsAll(max: nat, labels: seq<Label>) returns (more: seq<Label>)
    ensures Enabled(Run(max, labels), max, Stop) && Run(max, labels + [Stop]).mustStop && Run(max, labels + [Stop]).ready == []
    ensures forall i :: 0 <= i < |more| ==> Internal(more[i])
    ensures var s := Run(max, labels + [Stop] + more);
            s.workersCount == 0 && s.senders == [] && forall c :: 0 <= c < Run(max, labels).accepted ==> c in s.done
  {
    hide Run, Inv, StopAll;
    EveryRun(max, labels);
    var s := Run(max, labels);
    InvInRange(s, max);
    NextRun(max, labels, Stop);
    Stopped(s);
    more := AllIsServed(max, labels + [Stop]);
    StaysStopped(max, labels + [Stop], more);
  }

  lemma {:induction false} Stopped(s: State)
    requires forall i :: 0 <= i < |s.ready| ==> s.ready[i] < |s.chans|
    ensures StopAll(s).mustStop && StopAll(s).ready == [] && StopAll(s).accepted == s.accepted
    decreases |s.ready|
  {
    if s.ready != [] { Stopped(StopOne(s)); }
  }

  lemma {:induction false} StaysStopped(max: nat, labels: seq<Label>, more: seq<Label>)
    requires Run(max, labels).mustStop
    ensures Run(max, labels + more).mustStop
    decreases |more|
  {
    hide Run, Inv, Apply, Enabled;
    if more == [] {
      assert labels + more == labels;
    } else {
      var front, l := more[..|more| - 1], more[|more| - 1];
      StaysStopped(max, labels, front);
      NextRun(max, labels + front, l);
      assert labels + more == labels + front + [l];
      EveryRun(max, labels + front);
      if Enabled(Run(max, labels + front), max, l) {
        StopIsFinal(Run(max, labels + front), max, l);
      }
    }
  }

  lemma WorkBounded(s: State)
    ensures Work(s) >= 0
  {
    CountNonNegative(s.chans, Effort);
  }

  lemma AcceptsNone(s: State, max: nat, l: Label)
    requires Enabled(s, max, l) && Internal(l)
    ensures Apply(s, max, l).accepted == s.accepted
  {
  }
}
