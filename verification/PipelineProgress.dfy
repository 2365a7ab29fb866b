/** What a pipelining connection gets done, in every run: a request is written at most once and never after its deadline
    or after a failure, channels stay within their capacity, and every caller is answered. */
module PipelineProgress {
  import opened Ledger
  import opened Pipeline

  lemma NextRun(max: nat, labels: seq<Label>, l: Label)
    ensures Run(max, labels + [l])
            == if Enabled(Run(max, labels), max, l) then Apply(Run(max, labels), max, l) else Run(max, labels)
  {
    assert (labels + [l])[..|labels|] == labels;
  }

  /** The last step of labels + more. */
  lemma OneMore(max: nat, labels: seq<Label>, more: seq<Label>)
    requires more != []
    ensures var s, l := Run(max, labels + more[..|more| - 1]), more[|more| - 1];
            Run(max, labels + more) == if Enabled(s, max, l) then Apply(s, max, l) else s
  {
    hide Apply, Enabled;
    NextRun(max, labels + more[..|more| - 1], more[|more| - 1]);
    assert labels + more == labels + more[..|more| - 1] + [more[|more| - 1]];
  }

  /** In every run neither channel holds more than its capacity. */
  lemma {:induction false} ChannelsBounded(max: nat, labels: seq<Label>)
    ensures |Run(max, labels).chW| <= max && |Run(max, labels).chR| <= max
  {
    if labels != [] {
      ChannelsBounded(max, labels[..|labels| - 1]);
    }
  }

  // ---- after a failure ----

  /** Once the writer has stopped nothing more is written, in every continuation. */
  lemma {:induction false} WriterStopIsFinal(max: nat, labels: seq<Label>, more: seq<Label>)
    requires Run(max, labels).writer.WStopped?
    ensures Run(max, labels + more).writer.WStopped? && Run(max, labels + more).written == Run(max, labels).written
    decreases |more|
  {
    hide Run;
    if more == [] {
      assert labels + more == labels;
    } else {
      WriterStopIsFinal(max, labels, more[..|more| - 1]);
      OneMore(max, labels, more);
    }
  }

  /** A request that could not be written, or not be handed on, is the last thing the writer does in the run; its caller
      is told. */
  lemma FailedWriteIsLast(max: nat, labels: seq<Label>, w: nat, more: seq<Label>)
    requires Run(max, labels).writer == WHolding(w) || Run(max, labels).writer == WWritten(w)
    ensures var l := if Run(max, labels).writer.WHolding? then WriterFails else WriterGivesUp;
            && Run(max, labels + [l] + more).written == Run(max, labels).written
            && Run(max, labels + [l]).signalled == Run(max, labels).signalled + [w]
  {
    hide Run, Apply, Enabled;
    var l := if Run(max, labels).writer.WHolding? then WriterFails else WriterGivesUp;
    NextRun(max, labels, l);
    WriterEnds(Run(max, labels), max, l, w);
    WriterStopIsFinal(max, labels + [l], more);
  }

  lemma WriterEnds(s: State, max: nat, l: Label, w: nat)
    requires (s.writer == WHolding(w) && l == WriterFails) || (s.writer == WWritten(w) && l == WriterGivesUp)
    ensures Enabled(s, max, l)
    ensures var s' := Apply(s, max, l); s'.writer == WStopped && s'.written == s.written && s'.signalled == s.signalled + [w]
  {
  }

  /** Once the reader has stopped no more responses are taken for requests, in every continuation. */
  lemma {:induction false} ReaderStopIsFinal(max: nat, labels: seq<Label>, more: seq<Label>)
    requires Run(max, labels).reader.RStopped?
    ensures Run(max, labels + more).reader.RStopped? && Run(max, labels + more).answered == Run(max, labels).answered
    decreases |more|
  {
    hide Run;
    if more == [] {
      assert labels + more == labels;
    } else {
      ReaderStopIsFinal(max, labels, more[..|more| - 1]);
      OneMore(max, labels, more);
    }
  }

  /** So a response that could not be read is the last one of the run: no later response can go to a wrong request. */
  lemma FailedReadIsLast(max: nat, labels: seq<Label>, w: nat, more: seq<Label>)
    requires Run(max, labels).reader == RReading(w)
    ensures Run(max, labels + [ReaderFails] + more).answered == Run(max, labels).answered
    ensures Run(max, labels + [ReaderFails]).signalled == Run(max, labels).signalled + [w]
  {
    hide Run, Apply, Enabled;
    var l := ReaderFails;
    NextRun(max, labels, l);
    ReaderEnds(Run(max, labels), max, w);
    ReaderStopIsFinal(max, labels + [l], more);
  }

  lemma ReaderEnds(s: State, max: nat, w: nat)
    requires s.reader == RReading(w)
    ensures Enabled(s, max, ReaderFails)
    ensures var s' := Apply(s, max, ReaderFails);
            s'.reader == RStopped && s'.answered == s.answered && s'.signalled == s.signalled + [w]
  {
  }

  // ---- written once, and not too late ----

  /** Item w has not been written and can still be. */
  ghost function Unwritten(s: State, w: nat): int
  {
    Count(s.entering, Same(w)) + Count(s.chW, Same(w)) + if s.writer == WHolding(w) then 1 else 0
  }

  /** Item w was written at most once, and if it was, it is not on its way to the writer any more. */
  ghost predicate OnceWritten(s: State, w: nat)
  {
    && Count(s.written, Same(w)) + Unwritten(s, w) <= (if w < s.submitted then 1 else 0)
    && Unwritten(s, w) >= 0 && Count(s.written, Same(w)) >= 0
  }

  lemma WrittenStep(s: State, max: nat, l: Label, w: nat)
    requires Enabled(s, max, l) && OnceWritten(s, w)
    ensures var s' := Apply(s, max, l);
            && OnceWritten(s', w)
            && (w < s.submitted ==> Count(s'.written, Same(w)) + Unwritten(s', w) <= Count(s.written, Same(w)) + Unwritten(s, w))
            && (Unwritten(s, w) == 0 && w < s.submitted ==> Count(s'.written, Same(w)) == Count(s.written, Same(w)))
  {
    hide Count;
    var s' := Apply(s, max, l);
    CountNonNegative(s'.entering, Same(w));
    CountNonNegative(s'.chW, Same(w));
    CountNonNegative(s'.written, Same(w));
    CountNonNegative(s.entering, Same(w));
    CountNonNegative(s.chW, Same(w));
    match l
    case Submit => CountPush(s.entering, s.submitted, Same(w));
    case Enqueue(i) =>
      CountRemove(s.entering, i, Same(w));
      CountPush(s.chW, s.entering[i], Same(w));
    case Oust => ShiftOne(s.chW, w);
    case Refuse(i) => CountRemove(s.entering, i, Same(w));
    case WriterTakes => ShiftOne(s.chW, w);
    case WriterWrites => CountPush(s.written, s.writer.w, Same(w));
    case _ =>
  }

  /** In every run a request is written at most once. */
  lemma {:induction false} WrittenOnce(max: nat, labels: seq<Label>, w: nat)
    ensures OnceWritten(Run(max, labels), w)
  {
    hide OnceWritten, Apply, Enabled;
    if labels == [] {
      StartUnwritten(w);
    } else {
      var s, l := Run(max, labels[..|labels| - 1]), labels[|labels| - 1];
      WrittenOnce(max, labels[..|labels| - 1], w);
      if Enabled(s, max, l) {
        WrittenStep(s, max, l, w);
      }
    }
  }

  lemma StartUnwritten(w: nat)
    ensures OnceWritten(START, w)
  {
  }

  /** An item that is not on its way to the writer is never written later, in every continuation. */
  lemma {:induction false} NeverWrittenLater(max: nat, labels: seq<Label>, more: seq<Label>, w: nat)
    requires var s := Run(max, labels); w < s.submitted && Unwritten(s, w) == 0 && Count(s.written, Same(w)) == 0
    ensures var s := Run(max, labels + more); w < s.submitted && Unwritten(s, w) == 0 && Count(s.written, Same(w)) == 0
    decreases |more|
  {
    hide Run, Count, Unwritten, Apply, Enabled;
    if more == [] {
      assert labels + more == labels;
    } else {
      var front, l := more[..|more| - 1], more[|more| - 1];
      NeverWrittenLater(max, labels, front, w);
      OneMore(max, labels, more);
      WrittenOnce(max, labels + front, w);
      var s := Run(max, labels + front);
      if Enabled(s, max, l) {
        WrittenStep(s, max, l, w);
        SubmittedGrows(s, max, l);
      }
    }
  }

  lemma SubmittedGrows(s: State, max: nat, l: Label)
    requires Enabled(s, max, l)
    ensures Apply(s, max, l).submitted >= s.submitted
  {
  }

  /** A request whose deadline had passed when the writer took it is answered and never written; nor is one that was
      ousted from the queue. */
  lemma ExpiredIsNotWritten(max: nat, labels: seq<Label>, more: seq<Label>)
    requires Enabled(Run(max, labels), max, WriterExpires)
    ensures var w := Run(max, labels).writer.w;
            && Run(max, labels + [WriterExpires]).signalled == Run(max, labels).signalled + [w]
            && Run(max, labels + [WriterExpires]).writer == WIdle
            && Count(Run(max, labels + [WriterExpires] + more).written, Same(w)) == 0
  {
    hide Run, Count;
    var w := Run(max, labels).writer.w;
    WrittenOnce(max, labels, w);
    NextRun(max, labels, WriterExpires);
    WrittenOnce(max, labels + [WriterExpires], w);
    NeverWrittenLater(max, labels + [WriterExpires], more, w);
  }

  lemma OustedIsNotWritten(max: nat, labels: seq<Label>, more: seq<Label>)
    requires Enabled(Run(max, labels), max, Oust)
    ensures var w := Run(max, labels).chW[0]; Count(Run(max, labels + [Oust] + more).written, Same(w)) == 0
  {
    hide Run, Count;
    var s := Run(max, labels);
    var w := s.chW[0];
    WrittenOnce(max, labels, w);
    CountMember(s.chW, 0, Same(w));
    CountNonNegative(s.entering, Same(w));
    NextRun(max, labels, Oust);
    ShiftOne(s.chW, w);
    CountNonNegative(s.chW[1..], Same(w));
    NeverWrittenLater(max, labels + [Oust], more, w);
  }

  // ---- every caller is answered ----

  /** How many steps are still to be taken without a new request. */
  function Work(s: State): nat
  {
    7 * |s.entering| + 6 * |s.chW| + |s.ousted| + 3 * |s.chR|
    + (match s.writer case WIdle => 1 case WHolding(_) => 6 case WWritten(_) => 5 case WStopped => 0)
    + (match s.reader case RIdle => 1 case RReading(_) => 3 case RStopped => 0)
  }

  /** Every step but a new request leaves less to do. */
  lemma WorkShrinks(s: State, max: nat, l: Label)
    requires Enabled(s, max, l) && l != Submit
    ensures Work(Apply(s, max, l)) < Work(s)
  {
  }

  /** Nobody is on the way: whatever was submitted has been answered or refused, or waits in chW for the next connection. */
  ghost predicate AtRest(s: State)
  {
    && s.writer == WStopped && s.reader == RStopped && s.entering == [] && s.ousted == [] && s.chR == []
    && forall w: nat :: w < s.submitted ==>
         Count(s.signalled, Same(w)) + Count(s.refused, Same(w)) + Count(s.chW, Same(w)) == 1
  }

  /** While somebody is on the way there is a step to take. */
  lemma WorkGoesOn(max: nat, labels: seq<Label>) returns (l: Label)
    ensures l != Submit
    ensures Enabled(Run(max, labels), max, l) || AtRest(Run(max, labels))
  {
    hide Run, Count;
    var s := Run(max, labels);
    l := if s.entering != [] then Refuse(0)
         else if s.ousted != [] then SignalOusted(0)
         else if s.writer.WHolding? then WriterFails
         else if s.writer.WWritten? then WriterGivesUp
         else if s.writer.WIdle? then WriterStops
         else if s.reader.RReading? then ReaderFails
         else if s.reader.RIdle? then ReaderStops
         else Drain;
    if !Enabled(s, max, l) {
      forall w: nat | w < s.submitted
        ensures Count(s.signalled, Same(w)) + Count(s.refused, Same(w)) + Count(s.chW, Same(w)) == 1
      {
        EveryRunOnce(max, labels, w);
        CountNothing(s.entering, w);
        CountNothing(s.ousted, w);
        CountNothing(s.chR, w);
      }
    }
  }

  lemma CountNothing(q: seq<nat>, w: nat)
    requires q == []
    ensures Count(q, Same(w)) == 0
  {
  }

  /** From every state of every run the goroutines come to rest, with at most Work steps: every caller is answered exactly
      once or was refused, unless its request still waits for a connection. */
  lemma {:induction false} AllAreAnswered(max: nat, labels: seq<Label>) returns (more: seq<Label>)
    ensures |more| <= Work(Run(max, labels)) && forall i :: 0 <= i < |more| ==> more[i] != Submit
    ensures AtRest(Run(max, labels + more))
    decreases Work(Run(max, labels))
  {
    hide Run, AtRest, Apply, Enabled, Work;
    var l := WorkGoesOn(max, labels);
    if AtRest(Run(max, labels)) {
      more := [];
      assert labels + more == labels;
    } else {
      NextRun(max, labels, l);
      WorkShrinks(Run(max, labels), max, l);
      var rest := AllAreAnswered(max, labels + [l]);
      more := [l] + rest;
      assert labels + more == labels + [l] + rest;
    }
  }

  /** Who waits for what, in every run: a new request is always taken on; a caller can queue it exactly while chW has room, and ousts another
      one's only for a request of its own; the writer needs nothing but a request to write it, so it does not wait for
      responses, and hands it on exactly if chR has room; the reader takes the next request exactly if there is one. */
  lemma WhoWaits(max: nat, labels: seq<Label>)
    ensures var s := Run(max, labels);
            && Enabled(s, max, Submit)
            && (forall i: nat :: Enabled(s, max, Enqueue(i)) <==> i < |s.entering| && |s.chW| < max)
            && (Enabled(s, max, Oust) <==> s.chW != [] && s.entering != [])
            && (Enabled(s, max, WriterTakes) <==> s.writer == WIdle && s.chW != [])
            && (Enabled(s, max, WriterWrites) <==> s.writer.WHolding?)
            && (Enabled(s, max, WriterQueues) <==> s.writer.WWritten? && |s.chR| < max)
            && (Enabled(s, max, ReaderTakes) <==> s.reader == RIdle && s.chR != [])
            && (Enabled(s, max, ReaderAnswers) <==> s.reader.RReading?)
            && (s.writer.WWritten? && |s.chR| == max > 0 && s.reader == RIdle ==> Enabled(s, max, ReaderTakes))
            && (s.entering != [] && |s.chW| == max > 0 ==>
                  Enabled(s, max, Oust) && Enabled(Apply(s, max, Oust), max, Enqueue(0)))
  {
    hide Run;
    ChannelsBounded(max, labels);
  }

  /** With both goroutines idle and nothing else on the connection, the request that has waited longest is written, its
      response is read and its caller answered, and both are idle again. */
  lemma RequestIsAnswered(max: nat, labels: seq<Label>)
    requires var s := Run(max, labels); s.writer == WIdle && s.reader == RIdle && s.chR == [] && s.chW != [] && max > 0
    ensures var s := Run(max, labels);
            var s' := Run(max, labels + [WriterTakes] + [WriterWrites] + [WriterQueues] + [ReaderTakes] + [ReaderAnswers]);
            && s'.written == s.written + [s.chW[0]] && s'.answered == s.answered + [s.chW[0]]
            && s'.signalled == s.signalled + [s.chW[0]] && s'.chW == s.chW[1..] && s'.chR == []
            && s'.writer == WIdle && s'.reader == RIdle
  {
    hide Run;
    var one := labels + [WriterTakes];
    var two := one + [WriterWrites];
    var three := two + [WriterQueues];
    NextRun(max, labels, WriterTakes);
    NextRun(max, one, WriterWrites);
    NextRun(max, two, WriterQueues);
    NextRun(max, three, ReaderTakes);
    NextRun(max, three + [ReaderTakes], ReaderAnswers);
  }
}
