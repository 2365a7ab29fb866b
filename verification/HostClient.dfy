/** wantConnQueue and the locked sections of HostClient that use it, as the code runs them when no other
    goroutine interferes: two stages over two reused arrays, pop loops, hand-over to the oldest waiter. */
module HostClient {
  import opened Ledger
  import opened ConnPool

  /** A slot of the queue arrays that holds no waiter. */
  const NIL := -1

  /** The position of the oldest queued waiter that still waits, or the length. */
  ghost function FirstWaiting(q: seq<int>, waiters: seq<WantConn>): (k: nat)
    requires Known(q, waiters)
    ensures k <= |q|
    ensures forall i :: 0 <= i < k ==> !waiters[q[i]].Waiting()
    ensures k < |q| ==> waiters[q[k]].Waiting()
  {
    if q == [] || waiters[q[0]].Waiting() then 0 else 1 + FirstWaiting(q[1..], waiters)
  }

  ghost predicate Known(q: seq<int>, waiters: seq<WantConn>)
  {
    forall i :: 0 <= i < |q| ==> 0 <= q[i] < |waiters|
  }

  lemma FirstWaitingNext(q: seq<int>, waiters: seq<WantConn>)
    requires Known(q, waiters) && q != []
    ensures Known(q[1..], waiters)
    ensures !waiters[q[0]].Waiting() ==> FirstWaiting(q, waiters) == 1 + FirstWaiting(q[1..], waiters)
    ensures waiters[q[0]].Waiting() ==> FirstWaiting(q, waiters) == 0
  {
  }

  /** head[headPos..headLen] and tail[..tailLen] are the two stages; popFront swaps them when the first is used up. */
  class WantConnQueue {
    var head: array<int>
    var headLen: nat
    var headPos: nat
    var tail: array<int>
    var tailLen: nat
    var failedWaiters: int

    ghost predicate Valid()
      reads `head, `headLen, `headPos, `tail, `tailLen, head, tail
    {
      && headPos <= headLen <= head.Length && tailLen <= tail.Length && head != tail
      && (forall i :: headPos <= i < headLen ==> head[i] != NIL)
      && (forall i :: 0 <= i < tailLen ==> tail[i] != NIL)
    }

    ghost function Contents(): (s: seq<int>)
      requires Valid()
      reads `head, `headLen, `headPos, `tail, `tailLen, head, tail
      ensures forall i :: 0 <= i < |s| ==> s[i] != NIL
    {
      head[headPos..headLen] + tail[..tailLen]
    }

    constructor ()
      ensures Valid() && fresh(head) && fresh(tail) && Contents() == [] && failedWaiters == 0
    {
      head, headLen, headPos := new int[0], 0, 0;
      tail, tailLen := new int[0], 0;
      failedWaiters := 0;
    }

    function Len(): (n: int)
      requires Valid()
      reads this, head, tail
      ensures n == |Contents()| - failedWaiters
    {
      headLen - headPos + tailLen - failedWaiters
    }

    method PushBack(w: int)
      requires Valid() && w != NIL
      modifies this, tail
      ensures Valid() && head == old(head) && (tail == old(tail) || fresh(tail))
      ensures Contents() == old(Contents()) + [w] && failedWaiters == old(failedWaiters)
    {
      GrowTail();
      ghost var first, second := head[headPos..headLen], tail[..tailLen];
      tail[tailLen] := w;
      tailLen := tailLen + 1;
      assert tail[..tailLen] == second + [w];
      assert first + (second + [w]) == (first + second) + [w];
    }

    /** The array of the second stage gets room for one more. */
    method GrowTail()
      requires Valid()
      modifies `tail
      ensures Valid() && tailLen < tail.Length && (tail == old(tail) || fresh(tail)) && Contents() == old(Contents())
    {
      if tailLen == tail.Length {
        var bigger := new int[2 * tailLen + 1];
        forall i | 0 <= i < tailLen {
          bigger[i] := tail[i];
        }
        assert bigger[..tailLen] == tail[..tailLen];
        tail := bigger;
      }
    }

    method PopFront() returns (w: int)
      requires Valid()
      modifies this, head, tail
      ensures Valid() && {head, tail} == old({head, tail}) && failedWaiters == old(failedWaiters)
      ensures old(Contents()) == [] ==> w == NIL && Contents() == []
      ensures old(Contents()) != [] ==> w == old(Contents())[0] && Contents() == old(Contents())[1..]
    {
      if headPos >= headLen {
        if tailLen == 0 {
          return NIL;
        }
        // The old head array becomes the empty tail.
        head, headLen, headPos, tail, tailLen := tail, tailLen, 0, head, 0;
      }
      w := head[headPos];
      head[headPos] := NIL;
      headPos := headPos + 1;
    }

    method PeekFront() returns (w: int)
      requires Valid()
      ensures w == if Contents() == [] then NIL else Contents()[0]
    {
      if headPos < headLen {
        return head[headPos];
      }
      if tailLen > 0 {
        return tail[0];
      }
      return NIL;
    }

    /** Pops the waiters at the front that were settled, up to the first one still waiting. */
    method ClearFront(waiters: seq<WantConn>) returns (cleaned: bool)
      requires Valid() && Known(Contents(), waiters)
      modifies this, head, tail
      ensures Valid() && {head, tail} == old({head, tail})
      ensures var k := old(FirstWaiting(Contents(), waiters));
              Contents() == old(Contents())[k..] && failedWaiters == old(failedWaiters) - k && (cleaned <==> k > 0)
    {
      hide FirstWaiting, SettledCount, Dropped, Valid, Contents;
      ghost var q := Contents();
      ghost var n := 0;
      cleaned := false;
      DropNone(q, waiters);
      while true
        invariant Valid() && {head, tail} == old({head, tail})
        invariant n <= |q| && Contents() == q[n..] && failedWaiters == old(failedWaiters) - n && (cleaned <==> n > 0)
        invariant Dropped(q, n, waiters)
        decreases |q| - n
      {
        var w := PeekFront();
        if w == NIL {
          DropAll(q, waiters);
          return;
        }
        DropOne(q, n, waiters);
        if waiters[w].Waiting() {
          return;
        }
        var popped := PopFront();
        failedWaiters := failedWaiters - 1;
        cleaned := true;
        n := n + 1;
      }
    }

    /** The pop loop of releaseConn and decConnsCount: the oldest waiter that still waits, or NIL. */
    method PopWaiting(waiters: seq<WantConn>) returns (w: int)
      requires Valid() && Known(Contents(), waiters) && SettledCount(Contents(), waiters) <= failedWaiters
      modifies this, head, tail
      ensures Valid() && {head, tail} == old({head, tail})
      ensures Known(Contents(), waiters) && SettledCount(Contents(), waiters) <= failedWaiters
      ensures old(Len()) <= 0 ==> w == NIL && Contents() == old(Contents()) && failedWaiters == old(failedWaiters)
      ensures old(Len()) > 0 ==>
                var q, k := old(Contents()), old(FirstWaiting(Contents(), waiters));
                && k < |q| && w == q[k] && waiters[w].Waiting()
                && Contents() == q[k + 1..] && failedWaiters == old(failedWaiters) - k
    {
      hide FirstWaiting, SettledCount, Dropped, Valid, Contents, Len;
      ghost var q := Contents();
      ghost var n := 0;
      w := NIL;
      DropNone(q, waiters);
      while Len() > 0
        invariant Valid() && {head, tail} == old({head, tail})
        invariant n <= |q| && Contents() == q[n..] && failedWaiters == old(failedWaiters) - n
        invariant Dropped(q, n, waiters) && Known(q[n..], waiters) && SettledCount(q[n..], waiters) <= failedWaiters
        invariant w == NIL && (n > 0 ==> |q| > old(failedWaiters))
        decreases |q| - n
      {
        DropOne(q, n, waiters);
        w := PopFront();
        if waiters[w].Waiting() {
          return;
        }
        failedWaiters := failedWaiters - 1;
        w := NIL;
        n := n + 1;
      }
    }
  }

  /** How many of the queued waiters are settled. */
  ghost function SettledCount(q: seq<int>, waiters: seq<WantConn>): (n: nat)
    requires Known(q, waiters)
  {
    if q == [] then 0 else (if waiters[q[0]].Waiting() then 0 else 1) + SettledCount(q[1..], waiters)
  }

  /** Answering a waiter that is not queued does not change the count. */
  lemma {:induction false} SettledElsewhere(q: seq<int>, waiters: seq<WantConn>, w: int, x: WantConn)
    requires Known(q, waiters) && 0 <= w < |waiters| && w !in q
    ensures Known(q, waiters[w := x]) && SettledCount(q, waiters[w := x]) == SettledCount(q, waiters)
  {
    if q != [] { SettledElsewhere(q[1..], waiters, w, x); }
  }

  ghost predicate Distinct(q: seq<int>)
  {
    forall i, j :: 0 <= i < j < |q| ==> q[i] != q[j]
  }

  /** The first n waiters of q are settled, and the rest are known. */
  ghost predicate Dropped(q: seq<int>, n: nat, waiters: seq<WantConn>)
  {
    && n <= |q| && Known(q, waiters) && Known(q[n..], waiters)
    && FirstWaiting(q, waiters) == n + FirstWaiting(q[n..], waiters)
  }

  lemma DropNone(q: seq<int>, waiters: seq<WantConn>)
    requires Known(q, waiters)
    ensures Dropped(q, 0, waiters)
  {
    assert q[0..] == q;
  }

  lemma DropAll(q: seq<int>, waiters: seq<WantConn>)
    requires Dropped(q, |q|, waiters)
    ensures FirstWaiting(q, waiters) == |q|
  {
  }

  lemma DropOne(q: seq<int>, n: nat, waiters: seq<WantConn>)
    requires Dropped(q, n, waiters) && n < |q|
    ensures 0 <= q[n] < |waiters| && q[n..][0] == q[n] && q[n..][1..] == q[n + 1..] && Known(q[n + 1..], waiters)
    ensures waiters[q[n]].Waiting() ==>
              FirstWaiting(q, waiters) == n && SettledCount(q[n + 1..], waiters) == SettledCount(q[n..], waiters)
    ensures !waiters[q[n]].Waiting() ==>
              Dropped(q, n + 1, waiters) && SettledCount(q[n..], waiters) == SettledCount(q[n + 1..], waiters) + 1
  {
    assert q[n..][1..] == q[n + 1..];
    FirstWaitingNext(q[n..], waiters);
  }

  /** A HostClient whose waitFreeConnTimeout is not zero. `dials` lists the waiters dialConnFor was started for. */
  class HostClient {
    var conns: seq<nat>
    var connsCount: int
    var connsWait: WantConnQueue
    var waiters: seq<WantConn>
    var dials: seq<int>

    ghost predicate Valid()
      reads this, connsWait, connsWait.head, connsWait.tail
    {
      && connsWait.Valid() && Known(connsWait.Contents(), waiters) && Distinct(connsWait.Contents())
      && (forall w :: 0 <= w < |waiters| ==> (waiters[w].Waiting() <==> !waiters[w].Settled()))
      && SettledCount(connsWait.Contents(), waiters) <= connsWait.failedWaiters
    }

    constructor ()
      ensures Valid() && conns == [] && connsCount == 0 && connsWait.Contents() == [] && waiters == [] && dials == []
      ensures fresh(connsWait) && fresh(connsWait.head) && fresh(connsWait.tail)
    {
      conns, connsCount, waiters, dials := [], 0, [], [];
      connsWait := new WantConnQueue();
    }

    /** releaseConn: the connection goes to the oldest waiter that still waits, else to the idle list. */
    method ReleaseConn(cc: nat)
      requires Valid()
      modifies this`conns, this`waiters, connsWait, connsWait.head, connsWait.tail
      ensures Valid()
      ensures old(connsWait.Len()) <= 0 ==>
                conns == old(conns) + [cc] && waiters == old(waiters) && connsWait.Contents() == old(connsWait.Contents())
      ensures old(connsWait.Len()) > 0 ==>
                var q, k := old(connsWait.Contents()), old(FirstWaiting(connsWait.Contents(), waiters));
                && k < |q| && conns == old(conns) && connsWait.Contents() == q[k + 1..]
                && waiters == old(waiters)[q[k] := TryDeliver(old(waiters)[q[k]], Some(cc))]
                && waiters[q[k]].conn == Some(cc)
    {
      hide FirstWaiting, SettledCount;
      var w := connsWait.PopWaiting(waiters);
      if w != NIL {
        SettledElsewhere(connsWait.Contents(), waiters, w, TryDeliver(waiters[w], Some(cc)));
        waiters := waiters[w := TryDeliver(waiters[w], Some(cc))];
      } else {
        conns := conns + [cc];
      }
    }

    /** decConnsCount: the slot goes to a dial for the oldest waiter that still waits, else it is given up. */
    method DecConnsCount()
      requires Valid()
      modifies this`connsCount, this`dials, connsWait, connsWait.head, connsWait.tail
      ensures Valid()
      ensures old(connsWait.Len()) <= 0 ==>
                connsCount == old(connsCount) - 1 && dials == old(dials) && connsWait.Contents() == old(connsWait.Contents())
      ensures old(connsWait.Len()) > 0 ==>
                var q, k := old(connsWait.Contents()), old(FirstWaiting(connsWait.Contents(), waiters));
                && k < |q| && connsCount == old(connsCount) && dials == old(dials) + [q[k]]
                && connsWait.Contents() == q[k + 1..]
    {
      hide FirstWaiting, SettledCount;
      var w := connsWait.PopWaiting(waiters);
      if w != NIL {
        dials := dials + [w];
      } else {
        connsCount := connsCount - 1;
      }
    }
  }

  /** The binary search of Clean over the last use times of the idle connections; r + 1 of them are closed.
      It stops at a border in any list, and in a list sorted by last use it finds all expired ones and no others. */
  method ExpiredPrefix(lastUse: seq<int>, now: int, maxIdle: int) returns (r: int)
    requires |lastUse| > 0
    ensures -1 <= r < |lastUse|
    ensures r >= 0 ==> now - lastUse[r] > maxIdle
    ensures r + 1 < |lastUse| ==> now - lastUse[r + 1] <= maxIdle
    ensures (forall i, j :: 0 <= i < j < |lastUse| ==> lastUse[i] <= lastUse[j])
            ==> forall i :: 0 <= i < |lastUse| ==> (now - lastUse[i] > maxIdle <==> i <= r)
  {
    var l := 0;
    r := |lastUse| - 1;
    while l <= r
      invariant 0 <= l <= r + 1 <= |lastUse|
      invariant l > 0 ==> now - lastUse[l - 1] > maxIdle
      invariant r + 1 < |lastUse| ==> now - lastUse[r + 1] <= maxIdle
    {
      var mid := (l + r) / 2;
      if now - lastUse[mid] > maxIdle {
        l := mid + 1;
      } else {
        r := mid - 1;
      }
    }
  }
}
