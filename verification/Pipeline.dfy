/** pipelineConnClient: one run of worker with its writer and reader, and the callers of Do and DoDeadline. */
module Pipeline {
  import opened Ledger

  datatype Writer =
    | WIdle
    | WHolding(w: nat)   // taken from chW
    | WWritten(w: nat)   // written to the connection, not yet in chR
    | WStopped

  datatype Reader = RIdle | RReading(w: nat) | RStopped

  /** Work items are numbered in the order of submission.
      entering: acquired by a caller, not yet queued. ousted: taken out of chW by another caller to make room.
      signalled: whose done has been signalled, in order. refused: given back by a caller that could not queue it.
      written, taken, answered: what the writer wrote to this connection, what the reader took from chR, and the
      responses it has read, each in order. drained: what worker found in chR at its end. lost: what the writer
      had written when it had to stop before chR had room. queued, pulled: what went into and came out of chW. */
  datatype State = State(submitted: nat, entering: seq<nat>, chW: seq<nat>, ousted: seq<nat>, writer: Writer,
                         chR: seq<nat>, reader: Reader, signalled: seq<nat>, refused: seq<nat>,
                         written: seq<nat>, taken: seq<nat>, answered: seq<nat>, drained: seq<nat>, lost: seq<nat>,
                         queued: seq<nat>, pulled: seq<nat>)

  const START: State := State(0, [], [], [], WIdle, [], RIdle, [], [], [], [], [], [], [], [], [])

  datatype Label =
    | Submit             // acquirePipelineWork
    | Enqueue(i: nat)    // chW <- w
    | Oust               // wOld := <-chW
    | SignalOusted(i: nat)
    | Refuse(i: nat)     // ErrPipelineOverflow, or ErrTimeout before the item was queued
    | WriterTakes
    | WriterExpires      // the deadline of the item has passed
    | WriterWrites
    | WriterFails        // a deadline could not be set or the request not be written
    | WriterQueues       // chR <- w
    | WriterGivesUp      // stopped, or Flush failed, while chR was full
    | WriterStops
    | ReaderTakes
    | ReaderAnswers
    | ReaderFails
    | ReaderStops
    | Drain              // "Notify pending readers"

  function Without(s: seq<nat>, i: nat): seq<nat>
    requires i < |s|
  {
    s[..i] + s[i + 1..]
  }

  /** Channels hold max items; a worker drains chR when writer and reader have stopped. */
  predicate Enabled(s: State, max: nat, l: Label)
  {
    match l
    case Submit => true
    case Enqueue(i) => i < |s.entering| && |s.chW| < max
    case Oust => s.chW != [] && s.entering != []
    case SignalOusted(i) => i < |s.ousted|
    case Refuse(i) => i < |s.entering|
    case WriterTakes => s.writer.WIdle? && s.chW != []
    case WriterExpires => s.writer.WHolding?
    case WriterWrites => s.writer.WHolding?
    case WriterFails => s.writer.WHolding?
    case WriterQueues => s.writer.WWritten? && |s.chR| < max
    case WriterGivesUp => s.writer.WWritten?
    case WriterStops => s.writer.WIdle?
    case ReaderTakes => s.reader.RIdle? && s.chR != []
    case ReaderAnswers => s.reader.RReading?
    case ReaderFails => s.reader.RReading?
    case ReaderStops => s.reader.RIdle?
    case Drain => s.writer.WStopped? && s.reader.RStopped? && s.chR != []
  }

  /** w.done <- struct{}{} */
  function Signal(s: State, w: nat): State
  {
    s.(signalled := s.signalled + [w])
  }

  function Apply(s: State, max: nat, l: Label): State
    requires Enabled(s, max, l)
  {
    match l
    case Submit => s.(submitted := s.submitted + 1, entering := s.entering + [s.submitted])
    case Enqueue(i) =>
      s.(entering := Without(s.entering, i), chW := s.chW + [s.entering[i]], queued := s.queued + [s.entering[i]])
    case Oust => s.(chW := s.chW[1..], ousted := s.ousted + [s.chW[0]], pulled := s.pulled + [s.chW[0]])
    case SignalOusted(i) => Signal(s, s.ousted[i]).(ousted := Without(s.ousted, i))
    case Refuse(i) => s.(entering := Without(s.entering, i), refused := s.refused + [s.entering[i]])
    case WriterTakes => s.(writer := WHolding(s.chW[0]), chW := s.chW[1..], pulled := s.pulled + [s.chW[0]])
    case WriterExpires => Signal(s, s.writer.w).(writer := WIdle)
    case WriterWrites => s.(writer := WWritten(s.writer.w), written := s.written + [s.writer.w])
    case WriterFails => Signal(s, s.writer.w).(writer := WStopped)
    case WriterQueues => s.(writer := WIdle, chR := s.chR + [s.writer.w])
    case WriterGivesUp => Signal(s, s.writer.w).(writer := WStopped, lost := [s.writer.w])
    case WriterStops => s.(writer := WStopped)
    case ReaderTakes => s.(reader := RReading(s.chR[0]), chR := s.chR[1..], taken := s.taken + [s.chR[0]])
    case ReaderAnswers => Signal(s, s.reader.w).(reader := RIdle, answered := s.answered + [s.reader.w])
    case ReaderFails => Signal(s, s.reader.w).(reader := RStopped)
    case ReaderStops => s.(reader := RStopped)
    case Drain => Signal(s, s.chR[0]).(chR := s.chR[1..], drained := s.drained + [s.chR[0]])
  }

  /** The state after a list of steps; one that is not enabled is not taken. */
  function Run(max: nat, labels: seq<Label>): State
  {
    if labels == [] then START
    else
      var s, l := Run(max, labels[..|labels| - 1]), labels[|labels| - 1];
      if Enabled(s, max, l) then Apply(s, max, l) else s
  }

  // ---- order ----

  /** What the writer has written and not handed on. */
  function Behind(s: State): seq<nat>
  {
    if s.writer.WWritten? then [s.writer.w] else s.lost
  }

  /** chR holds, in order, exactly what was written and not taken; what was taken has been answered, except perhaps
      for the last. */
  ghost predicate InOrder(s: State)
  {
    && s.written == s.taken + s.drained + s.chR + Behind(s)
    && (s.lost != [] ==> s.writer.WStopped?)
    && (s.drained != [] ==> s.writer.WStopped? && s.reader.RStopped?)
    && (s.reader.RIdle? ==> s.taken == s.answered)
    && (s.reader.RReading? ==> s.taken == s.answered + [s.reader.w])
    && s.answered <= s.taken && |s.taken| <= |s.answered| + 1
  }

  lemma ReaderTakesInOrder(s: State, max: nat)
    requires InOrder(s) && Enabled(s, max, ReaderTakes)
    ensures InOrder(Apply(s, max, ReaderTakes))
  {
    var w, rest := s.chR[0], s.chR[1..];
    assert s.drained == [] && s.chR == [w] + rest;
    assert s.taken + [] + ([w] + rest) + Behind(s) == (s.taken + [w]) + [] + rest + Behind(s);
  }

  lemma DrainInOrder(s: State, max: nat)
    requires InOrder(s) && Enabled(s, max, Drain)
    ensures InOrder(Apply(s, max, Drain))
  {
    var w, rest := s.chR[0], s.chR[1..];
    assert s.chR == [w] + rest;
    assert s.taken + s.drained + ([w] + rest) + s.lost == s.taken + (s.drained + [w]) + rest + s.lost;
  }

  lemma WriterInOrder(s: State, max: nat, l: Label)
    requires InOrder(s) && Enabled(s, max, l)
    requires l.WriterWrites? || l.WriterQueues? || l.WriterGivesUp? || l.WriterStops? || l.WriterFails?
    ensures InOrder(Apply(s, max, l))
  {
    var q := s.taken + s.drained + s.chR;
    assert q + [] == q;
    if l.WriterQueues? {
      assert s.lost == [];
      assert q + [s.writer.w] == s.taken + s.drained + (s.chR + [s.writer.w]) + [];
    }
  }

  lemma KeepOrder(s: State, max: nat, l: Label)
    requires InOrder(s) && Enabled(s, max, l)
    ensures InOrder(Apply(s, max, l))
  {
    if l.ReaderTakes? {
      ReaderTakesInOrder(s, max);
    } else if l.Drain? {
      DrainInOrder(s, max);
    } else if l.WriterWrites? || l.WriterQueues? || l.WriterGivesUp? || l.WriterStops? || l.WriterFails? {
      WriterInOrder(s, max, l);
    } else {
      OthersInOrder(s, max, l);
    }
  }

  lemma OthersInOrder(s: State, max: nat, l: Label)
    requires InOrder(s) && Enabled(s, max, l) && !l.ReaderTakes? && !l.Drain?
    requires !(l.WriterWrites? || l.WriterQueues? || l.WriterGivesUp? || l.WriterStops? || l.WriterFails?)
    ensures InOrder(Apply(s, max, l))
  {
    var s' := Apply(s, max, l);
    assert s'.written == s.written && s'.chR == s.chR && s'.taken == s.taken && s'.drained == s.drained;
    assert Behind(s') == Behind(s);
  }

  lemma {:induction false} EveryRunInOrder(max: nat, labels: seq<Label>)
    ensures InOrder(Run(max, labels))
  {
    hide InOrder, Apply, Enabled;
    if labels == [] {
      StartInOrder();
    } else {
      var s, l := Run(max, labels[..|labels| - 1]), labels[|labels| - 1];
      EveryRunInOrder(max, labels[..|labels| - 1]);
      if Enabled(s, max, l) {
        KeepOrder(s, max, l);
      }
    }
  }

  lemma StartInOrder()
    ensures InOrder(START)
  {
  }

  /** In every run the k-th response read on the connection fills the k-th request written on it, and while reader
      and writer run chR is what was written and not taken. */
  lemma AnswersInOrder(max: nat, labels: seq<Label>, k: nat)
    ensures var s := Run(max, labels);
            && (k < |s.answered| ==> k < |s.written| && s.answered[k] == s.written[k])
            && (!s.writer.WStopped? || !s.reader.RStopped? ==>
                  |s.taken| <= |s.written| && s.written[|s.taken|..] == s.chR + Behind(s))
  {
    hide Run;
    EveryRunInOrder(max, labels);
    var s := Run(max, labels);
    if s.drained == [] {
      assert s.taken + [] + s.chR + Behind(s) == s.taken + (s.chR + Behind(s));
    }
  }

  /** chW is first in, first out: the writer takes, and a caller ousts, the request that has waited longest. */
  lemma {:induction false} QueuedInOrder(max: nat, labels: seq<Label>)
    ensures var s := Run(max, labels); s.queued == s.pulled + s.chW
  {
    if labels != [] {
      var s, l := Run(max, labels[..|labels| - 1]), labels[|labels| - 1];
      QueuedInOrder(max, labels[..|labels| - 1]);
      if Enabled(s, max, l) {
        QueueStep(s, max, l);
      }
    }
  }

  lemma QueueStep(s: State, max: nat, l: Label)
    requires Enabled(s, max, l) && s.queued == s.pulled + s.chW
    ensures Apply(s, max, l).queued == Apply(s, max, l).pulled + Apply(s, max, l).chW
  {
    if l.Oust? || l.WriterTakes? {
      assert s.pulled + s.chW == s.pulled + [s.chW[0]] + s.chW[1..];
    } else if l.Enqueue? {
      assert s.pulled + s.chW + [s.entering[l.i]] == s.pulled + (s.chW + [s.entering[l.i]]);
    }
  }

  // ---- one place, one signal ----

  function Same(w: nat): nat -> int
  {
    (x: nat) => if x == w then 1 else 0
  }

  ghost function InHand(s: State, w: nat): int
  {
    (if (s.writer.WHolding? || s.writer.WWritten?) && s.writer.w == w then 1 else 0)
    + if s.reader.RReading? && s.reader.w == w then 1 else 0
  }

  /** In how many places an item is. */
  ghost function Places(s: State, w: nat): int
  {
    Count(s.entering, Same(w)) + Count(s.chW, Same(w)) + Count(s.ousted, Same(w)) + Count(s.chR, Same(w)) + InHand(s, w)
  }

  ghost predicate Once(s: State, w: nat)
  {
    Places(s, w) + Count(s.signalled, Same(w)) + Count(s.refused, Same(w)) == if w < s.submitted then 1 else 0
  }

  lemma ShiftOne(q: seq<nat>, w: nat)
    requires q != []
    ensures Count(q[1..], Same(w)) == Count(q, Same(w)) - Same(w)(q[0])
  {
    CountRemove(q, 0, Same(w));
    assert q[..0] + q[1..] == q[1..];
  }

  lemma KeepOnce(s: State, max: nat, l: Label, w: nat)
    requires Enabled(s, max, l) && Once(s, w)
    ensures Once(Apply(s, max, l), w)
  {
    hide Count;
    match l
    case Submit => CountPush(s.entering, s.submitted, Same(w));
    case Enqueue(i) =>
      CountRemove(s.entering, i, Same(w));
      CountPush(s.chW, s.entering[i], Same(w));
    case Oust =>
      ShiftOne(s.chW, w);
      CountPush(s.ousted, s.chW[0], Same(w));
    case SignalOusted(i) =>
      CountRemove(s.ousted, i, Same(w));
      CountPush(s.signalled, s.ousted[i], Same(w));
    case Refuse(i) =>
      CountRemove(s.entering, i, Same(w));
      CountPush(s.refused, s.entering[i], Same(w));
    case WriterTakes => ShiftOne(s.chW, w);
    case WriterExpires => CountPush(s.signalled, s.writer.w, Same(w));
    case WriterWrites =>
    case WriterFails => CountPush(s.signalled, s.writer.w, Same(w));
    case WriterQueues => CountPush(s.chR, s.writer.w, Same(w));
    case WriterGivesUp => CountPush(s.signalled, s.writer.w, Same(w));
    case WriterStops =>
    case ReaderTakes => ShiftOne(s.chR, w);
    case ReaderAnswers => CountPush(s.signalled, s.reader.w, Same(w));
    case ReaderFails => CountPush(s.signalled, s.reader.w, Same(w));
    case ReaderStops =>
    case Drain =>
      ShiftOne(s.chR, w);
      CountPush(s.signalled, s.chR[0], Same(w));
  }

  /** In every run a submitted item is in exactly one place, or its done has been signalled once, or its caller gave
      it back: never two of these, and nothing twice. */
  lemma {:induction false} EveryRunOnce(max: nat, labels: seq<Label>, w: nat)
    ensures Once(Run(max, labels), w)
  {
    hide Once, Apply, Enabled;
    if labels == [] {
      StartOnce(w);
    } else {
      var s, l := Run(max, labels[..|labels| - 1]), labels[|labels| - 1];
      EveryRunOnce(max, labels[..|labels| - 1], w);
      if Enabled(s, max, l) {
        KeepOnce(s, max, l, w);
      }
    }
  }

  lemma StartOnce(w: nat)
    ensures Once(START, w)
  {
  }

  /** done is signalled at most once for an item, and an item that was signalled or given back is nowhere else: it
      can be used again. */
  lemma SignalledOnce(max: nat, labels: seq<Label>, i: nat)
    requires i < |Run(max, labels).signalled|
    ensures var s := Run(max, labels);
            var w := s.signalled[i];
            && w < s.submitted && Places(s, w) == 0 && Count(s.refused, Same(w)) == 0
            && forall j :: 0 <= j < |s.signalled| && j != i ==> s.signalled[j] != w
  {
    hide Count, Run;
    var s := Run(max, labels);
    var w := s.signalled[i];
    EveryRunOnce(max, labels, w);
    CountMember(s.signalled, i, Same(w));
    NonNegative(s, w);
    forall j | 0 <= j < |s.signalled| && j != i
      ensures s.signalled[j] != w
    {
      CountTwo(s.signalled, if i < j then i else j, if i < j then j else i, Same(w));
    }
  }

  lemma NonNegative(s: State, w: nat)
    ensures Places(s, w) >= 0 && Count(s.refused, Same(w)) >= 0
  {
    hide Count;
    CountNonNegative(s.entering, Same(w));
    CountNonNegative(s.chW, Same(w));
    CountNonNegative(s.ousted, Same(w));
    CountNonNegative(s.chR, Same(w));
    CountNonNegative(s.refused, Same(w));
  }
}
