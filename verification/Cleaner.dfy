/** DurationCleaner: items are cleaned when their deadline has come, and rescheduled or dropped while the heap
    of deadlines is being worked off. */
module Cleaner {
  import opened Ledger
  import opened DeadlineHeap

  function Max(a: int, b: int): int
  {
    if a < b then b else a
  }

  // ---- the cleaner's state as a value ----

  /** The heap, the deadline last published for its root, and the time the timer was last asked to fire at. */
  datatype State = State(h: seq<Item>, zeroWhen: int, wake: int)

  ghost predicate Positive(h: seq<Item>)
  {
    forall k :: 0 <= k < |h| ==> h[k].when > 0
  }

  /** What holds between any two steps: zeroWhen never exceeds the deadline of the root, and where it is not
      that deadline it is one that had passed by `last`. */
  ghost predicate Ordered(s: State, last: int)
  {
    && Heap(s.h) && Positive(s.h)
    && (s.h == [] ==> s.zeroWhen == 0)
    && (s.h != [] ==> s.zeroWhen <= s.h[0].when && (s.zeroWhen == s.h[0].when || s.zeroWhen <= last))
  }

  /** The timer does not oversleep the root: once the root is due the timer has been asked to fire. */
  ghost predicate Armed(s: State, last: int)
  {
    s.h != [] ==> s.wake <= Max(s.h[0].when, last)
  }

  /** update0When at time t. */
  function Update0When(s: State, t: int): State
  {
    if s.h == [] then s.(zeroWhen := 0)
    else if s.zeroWhen != s.h[0].when then State(s.h, s.h[0].when, Max(s.h[0].when, t))
    else s
  }

  /** The heap without its root. */
  function WithoutRoot(h: seq<Item>): (r: seq<Item>)
    requires h != []
  {
    var last := |h| - 1;
    if last == 0 then [] else SiftDown(h[0 := h[last]][..last], 0)
  }

  /** runOne: Clean answered at time t with a new duration, or asked to stop. */
  function RunOne(s: State, minDuration: int, answer: (int, bool), t: int, t': int): State
    requires s.h != []
  {
    var h := s.h[0 := Item(s.h[0].client, Max(answer.0, minDuration) + t)];
    if answer.1 then Update0When(State(WithoutRoot(h), s.zeroWhen, s.wake), t')
    else s.(h := SiftDown(h, 0))
  }

  /** doAdd of an item at time t. */
  function Add(s: State, item: Item, t: int): State
  {
    var up := SiftUp(s.h + [item], |s.h|);
    var s' := s.(h := up.0);
    if up.1 == 0 then Update0When(s', t) else s'
  }

  // ---- one step of the heap ----

  lemma NewRootMayGoDown(h: seq<Item>, x: Item)
    requires Heap(h) && h != []
    ensures HeapButDown(h[0 := x], 0)
  {
    var t := h[0 := x];
    forall j | 0 < j < |t| && Parent(j) != 0
      ensures Below(t, j)
    {
      assert Below(h, j);
    }
  }

  lemma FirstReplaced(h: seq<Item>, x: Item)
    requires h != []
    ensures multiset(h[0 := x]) + multiset{h[0]} == multiset(h) + multiset{x}
  {
    assert h == [h[0]] + h[1..] && h[0 := x] == [x] + h[1..];
  }

  lemma NewRootIsHeap(h: seq<Item>, x: Item)
    requires Heap(h) && h != []
    ensures Heap(SiftDown(h[0 := x], 0))
    ensures multiset(SiftDown(h[0 := x], 0)) + multiset{h[0]} == multiset(h) + multiset{x}
  {
    hide SiftDown, Heap, HeapButDown;
    NewRootMayGoDown(h, x);
    SiftDownIsHeap(h[0 := x], 0);
    FirstReplaced(h, x);
  }

  lemma PrefixIsHeap(h: seq<Item>, n: nat)
    requires Heap(h) && n <= |h|
    ensures Heap(h[..n])
  {
    forall j | 0 < j < n
      ensures Below(h[..n], j)
    {
      assert Below(h, j);
    }
  }

  lemma WithoutRootIsHeap(h: seq<Item>, x: Item)
    requires Heap(h) && h != []
    ensures Heap(WithoutRoot(h[0 := x])) && multiset(WithoutRoot(h[0 := x])) + multiset{h[0]} == multiset(h)
  {
    hide SiftDown, Heap;
    var last := |h| - 1;
    if last == 0 {
      assert h == [h[0]];
      EmptyIsHeap();
    } else {
      assert h == h[..last] + [h[last]];
      PrefixIsHeap(h, last);
      NewRootIsHeap(h[..last], h[last]);
      assert h[0 := x][0 := h[0 := x][last]][..last] == h[..last][0 := h[last]];
      assert multiset(h) == multiset(h[..last]) + multiset{h[last]};
    }
  }

  lemma EmptyIsHeap()
    ensures Heap([])
  {
  }

  /** The number of items due at now; it drops with every round of checkItems. */
  function IsDue(now: int): Item -> int
  {
    (x: Item) => if x.when <= now then 1 else 0
  }

  lemma CountWithoutRoot(h: seq<Item>, x: Item, weight: Item -> int)
    requires h != []
    ensures Count(WithoutRoot(h[0 := x]), weight) == Count(h, weight) - weight(h[0])
  {
    hide SiftDown, Count;
    var last := |h| - 1;
    assert h[..last] + [h[last]] == h;
    CountPush(h[..last], h[last], weight);
    if last == 0 {
      assert h[..last] == [] && WithoutRoot(h[0 := x]) == [];
    } else {
      assert h[0 := x][0 := h[0 := x][last]][..last] == h[..last][0 := h[last]];
      CountUpdate(h[..last], 0, h[last], weight);
      SiftDownCounts(h[..last][0 := h[last]], 0, weight);
    }
  }

  lemma CountNewRoot(h: seq<Item>, x: Item, weight: Item -> int)
    requires h != []
    ensures Count(SiftDown(h[0 := x], 0), weight) == Count(h, weight) - weight(h[0]) + weight(x)
  {
    hide SiftDown, Count;
    CountUpdate(h, 0, x, weight);
    SiftDownCounts(h[0 := x], 0, weight);
  }

  // ---- what every step keeps ----

  /** h' is h with r taken out and, unless it is dropped, x put in. */
  ghost predicate Exchanged(h: seq<Item>, r: Item, dropped: bool, x: Item, h': seq<Item>)
  {
    multiset(h') + multiset{r} == multiset(h) + if dropped then multiset{} else multiset{x}
  }

  lemma MembersOf(h: seq<Item>, r: Item, dropped: bool, x: Item, h': seq<Item>, k: nat)
    requires Exchanged(h, r, dropped, x, h') && k < |h'|
    ensures h'[k] in h || (!dropped && h'[k] == x)
  {
    assert h'[k] in multiset(h');
    assert h'[k] in multiset(h') + multiset{r};
    assert h'[k] in multiset(h) || (!dropped && h'[k] == x);
  }

  /** Clean was called on the root, which was due: the rest of the state stays in order, the root is gone or has
      a deadline that is not yet due, and one item less is due. */
  lemma RunOneKeeps(s: State, minDuration: int, answer: (int, bool), t: int, t': int, now: int)
    requires Ordered(s, now) && s.h != [] && s.h[0].when <= now <= t && minDuration > 0
    ensures var x := Item(s.h[0].client, Max(answer.0, minDuration) + t);
            var s' := RunOne(s, minDuration, answer, t, t');
            && x.when > now && Ordered(s', now) && Exchanged(s.h, s.h[0], answer.1, x, s'.h)
            && Count(s'.h, IsDue(now)) == Count(s.h, IsDue(now)) - 1
  {
    hide Heap, SiftDown, WithoutRoot, Count, Exchanged;
    var x := Item(s.h[0].client, Max(answer.0, minDuration) + t);
    var s' := RunOne(s, minDuration, answer, t, t');
    RunOneHeap(s, minDuration, answer, t, t');
    forall k | 0 <= k < |s'.h|
      ensures s'.h[k].when >= s.h[0].when
    {
      MembersOf(s.h, s.h[0], answer.1, x, s'.h, k);
      if s'.h[k] in s.h {
        var m :| 0 <= m < |s.h| && s.h[m] == s'.h[k];
        RootIsFirst(s.h, m);
      }
    }
    assert Positive(s'.h);
    if answer.1 {
      CountWithoutRoot(s.h, x, IsDue(now));
    } else {
      CountNewRoot(s.h, x, IsDue(now));
    }
  }

  lemma RunOneHeap(s: State, minDuration: int, answer: (int, bool), t: int, t': int)
    requires Heap(s.h) && s.h != []
    ensures var x := Item(s.h[0].client, Max(answer.0, minDuration) + t);
            var s' := RunOne(s, minDuration, answer, t, t');
            Heap(s'.h) && Exchanged(s.h, s.h[0], answer.1, x, s'.h) && (!answer.1 ==> s'.h != [])
  {
    hide Heap, SiftDown, WithoutRoot;
    var x := Item(s.h[0].client, Max(answer.0, minDuration) + t);
    if answer.1 {
      WithoutRootIsHeap(s.h, x);
    } else {
      NewRootIsHeap(s.h, x);
    }
  }

  /** Adding an item keeps the order, whatever its deadline and however late the timer is. Afterwards the timer does not
      oversleep, unless update0When takes the deadline of the new root for the published one, or the new item is not
      the root and the old root was being overslept. */
  lemma AddKeeps(s: State, item: Item, last: int, t: int)
    requires Ordered(s, last) && item.when > 0 && last <= t
    ensures var s' := Add(s, item, t);
            && Ordered(s', t) && multiset(s'.h) == multiset(s.h) + multiset{item}
            && (Armed(s', t) <==> if BecomesRoot(s, item) then !Mistaken(s, item, t) else Armed(s, t))
  {
    hide Heap, SiftUp;
    var h := s.h + [item];
    var up := SiftUp(h, |s.h|);
    AddIsHeap(s.h, item);
    forall k | 0 <= k < |up.0|
      ensures up.0[k].when > 0
    {
      assert up.0[k] in multiset(up.0);
      assert up.0[k] in s.h || up.0[k] == item;
    }
    if s.h != [] && up.1 == 0 {
      assert up.0[0] == item;
    }
  }

  predicate BecomesRoot(s: State, item: Item)
  {
    s.h == [] || item.when < s.h[0].when
  }

  /** The published deadline is that of the new item, so the timer is left as it is; but it is set to fire too late. */
  predicate Mistaken(s: State, item: Item, t: int)
  {
    item.when == s.zeroWhen && s.wake > Max(item.when, t)
  }

  lemma AddIsHeap(h: seq<Item>, item: Item)
    requires Heap(h)
    ensures var up := SiftUp(h + [item], |h|);
            && Heap(up.0) && multiset(up.0) == multiset(h) + multiset{item}
            && (up.1 == 0 <==> h == [] || item.when < h[0].when) && (up.1 != 0 ==> up.0[0] == h[0])
  {
    hide SiftUp, HeapButUp, Heap;
    var t := h + [item];
    AppendedMayGoUp(h, item);
    SiftUpIsHeap(t, |h|);
    SiftUpToRoot(t, |h|);
    assert h != [] ==> t[0] == h[0];
  }

  lemma AppendedMayGoUp(h: seq<Item>, item: Item)
    requires Heap(h)
    ensures HeapButUp(h + [item], |h|)
    ensures forall j {:trigger Below(h + [item], j)} :: 0 < j < |h| ==> Below(h + [item], j)
  {
    var t := h + [item];
    forall j | 0 < j < |h|
      ensures Below(t, j)
    {
      assert Below(h, j);
    }
    assert forall j {:trigger Parent(j)} :: 0 < j < |t| ==> Parent(j) < |h|;
  }

  /** A deadline that is still in the future when the item is added is never mistaken for a published one. */
  lemma FutureIsArmed(s: State, item: Item, last: int, t: int)
    requires Ordered(s, last) && last <= t < item.when && item.when > 0 && BecomesRoot(s, item)
    ensures !Mistaken(s, item, t)
  {
  }

  lemma SingleIsHeap(x: Item)
    ensures Heap([x])
  {
  }

  // ---- the rounds of checkItems ----

  /** After some rounds: what was cleaned was due, what was rescheduled is not, nothing else has changed. */
  ghost predicate Working(s: State, start: seq<Item>, cleaned: seq<Item>, rescheduled: seq<Item>, now: int)
  {
    && Ordered(s, now)
    && multiset(s.h) + multiset(cleaned) == multiset(start) + multiset(rescheduled)
    && (forall k :: 0 <= k < |cleaned| ==> cleaned[k].when <= now)
    && (forall k :: 0 <= k < |rescheduled| ==> rescheduled[k].when > now)
  }

  lemma WorkingOne(s: State, start: seq<Item>, cleaned: seq<Item>, rescheduled: seq<Item>, now: int,
                   minDuration: int, answer: (int, bool), t: int, t': int)
    requires Working(s, start, cleaned, rescheduled, now)
    requires s.h != [] && s.h[0].when <= now <= t && minDuration > 0
    ensures var x := Item(s.h[0].client, Max(answer.0, minDuration) + t);
            var s' := RunOne(s, minDuration, answer, t, t');
            && Working(s', start, cleaned + [s.h[0]], if answer.1 then rescheduled else rescheduled + [x], now)
            && Count(s'.h, IsDue(now)) < Count(s.h, IsDue(now))
  {
    hide Ordered, RunOne, Count;
    RunOneKeeps(s, minDuration, answer, t, t', now);
    var x := Item(s.h[0].client, Max(answer.0, minDuration) + t);
    Balance(s.h, s.h[0], answer.1, x, RunOne(s, minDuration, answer, t, t').h, start, cleaned, rescheduled);
  }

  lemma Balance(h: seq<Item>, r: Item, dropped: bool, x: Item, h': seq<Item>,
                start: seq<Item>, cleaned: seq<Item>, rescheduled: seq<Item>)
    requires Exchanged(h, r, dropped, x, h')
    requires multiset(h) + multiset(cleaned) == multiset(start) + multiset(rescheduled)
    ensures multiset(h') + multiset(cleaned + [r]) ==
            multiset(start) + multiset(if dropped then rescheduled else rescheduled + [x])
  {
    var out := if dropped then multiset{} else multiset{x};
    var hm, hm', c, st, re := multiset(h), multiset(h'), multiset(cleaned), multiset(start), multiset(rescheduled);
    assert multiset(cleaned + [r]) == c + multiset{r};
    assert multiset(if dropped then rescheduled else rescheduled + [x]) == re + out;
    calc {
      hm' + (c + multiset{r});
      (hm' + multiset{r}) + c;
      (hm + out) + c;
      (hm + c) + out;
      (st + re) + out;
      st + (re + out);
    }
  }

  /** Clean was called once for every item that was due and for no other: the calls are, as a multiset, the items
      of the start that are due. */
  lemma OnceEach(s: State, start: seq<Item>, cleaned: seq<Item>, rescheduled: seq<Item>, now: int, x: Item)
    requires Working(s, start, cleaned, rescheduled, now)
    requires forall k :: 0 <= k < |s.h| ==> s.h[k].when > now
    ensures multiset(cleaned)[x] == if x.when <= now then multiset(start)[x] else 0
    ensures x.when > now ==> multiset(s.h)[x] == multiset(start)[x] + multiset(rescheduled)[x]
  {
    assert x.when <= now ==> x !in s.h && x !in rescheduled;
    assert x.when > now ==> x !in cleaned;
    assert (multiset(s.h) + multiset(cleaned))[x] == (multiset(start) + multiset(rescheduled))[x];
  }

  /** The items that go on after the calls to Clean, with their new deadlines. */
  function Again(cleaned: seq<Item>, answer: nat -> (int, bool), clock: nat -> int, minDuration: int): seq<Item>
  {
    if cleaned == [] then []
    else
      var k := |cleaned| - 1;
      Again(cleaned[..k], answer, clock, minDuration)
      + if answer(k).1 then [] else [Item(cleaned[k].client, Max(answer(k).0, minDuration) + clock(2 * k))]
  }

  /** What holds goes on to hold while time passes. */
  lemma TimePasses(s: State, last: int, later: int)
    requires Ordered(s, last) && Armed(s, last) && last <= later
    ensures Ordered(s, later) && Armed(s, later)
  {
  }

  // ---- the cleaner as a function ----

  /** The rounds of checkItems from the k-th call to Clean on. */
  ghost function Worked(s: State, now: int, k: nat, minDuration: int, answer: nat -> (int, bool), clock: nat -> int): State
    requires Ordered(s, now) && minDuration > 0 && forall i :: clock(i) >= now
    decreases Count(s.h, IsDue(now))
  {
    if s.h == [] || s.h[0].when > now then s
    else
      RunOneKeeps(s, minDuration, answer(k), clock(2 * k), clock(2 * k + 1), now);
      CountNonNegative(s.h, IsDue(now));
      CountNonNegative(RunOne(s, minDuration, answer(k), clock(2 * k), clock(2 * k + 1)).h, IsDue(now));
      Worked(RunOne(s, minDuration, answer(k), clock(2 * k), clock(2 * k + 1)), now, k + 1, minDuration, answer, clock)
  }

  /** One round of startClen: checkItems, and the timer set to the deadline it returns. */
  ghost function Ticked(s: State, now: int, minDuration: int, answer: nat -> (int, bool), clock: nat -> int): State
    requires Ordered(s, now) && minDuration > 0 && forall i :: clock(i) >= now
  {
    if now < s.zeroWhen then s.(wake := s.zeroWhen)
    else
      var w := Worked(s, now, 0, minDuration, answer, clock);
      if w.h == [] then w else w.(wake := w.h[0].when)
  }

  lemma WorkedStep(s: State, now: int, k: nat, minDuration: int, answer: nat -> (int, bool), clock: nat -> int)
    requires Ordered(s, now) && minDuration > 0 && (forall i :: clock(i) >= now) && s.h != [] && s.h[0].when <= now
    ensures var s' := RunOne(s, minDuration, answer(k), clock(2 * k), clock(2 * k + 1));
            Ordered(s', now)
            && Worked(s, now, k, minDuration, answer, clock) == Worked(s', now, k + 1, minDuration, answer, clock)
  {
    hide Ordered, RunOne, Count;
    RunOneKeeps(s, minDuration, answer(k), clock(2 * k), clock(2 * k + 1), now);
  }

  lemma WorkedEnd(s: State, now: int, k: nat, minDuration: int, answer: nat -> (int, bool), clock: nat -> int)
    requires Ordered(s, now) && minDuration > 0 && (forall i :: clock(i) >= now) && (s.h == [] || s.h[0].when > now)
    ensures Worked(s, now, k, minDuration, answer, clock) == s
  {
  }

  // ---- every run ----

  /** Registered: Register read the clock at t0 and had the lock at t. Fired: the timer fired, and the cleaner held the
      lock from now to later. */
  datatype Event =
    | Registered(client: nat, duration: int, t0: int, t: int)
    | Fired(now: int, later: int, answer: nat -> (int, bool), clock: nat -> int)

  /** The lock is taken in the order of time, and deadlines are positive. */
  ghost predicate Timely(e: Event, last: int)
  {
    if e.Registered? then e.t0 + e.duration > 0 && e.t0 <= e.t && last <= e.t
    else last <= e.now <= e.later && 0 < e.now && forall i :: e.now <= e.clock(i) <= e.later
  }

  ghost function After(s: State, e: Event, minDuration: int): State
  {
    if e.Registered? then Add(s, Item(e.client, e.t0 + e.duration), e.t)
    else if Ordered(s, e.now) && minDuration > 0 && (forall i :: e.clock(i) >= e.now) then
      Ticked(s, e.now, minDuration, e.answer, e.clock)
    else s
  }

  /** The state after a list of events, and the time of the last one; an event out of time does not happen. */
  ghost function RunOf(events: seq<Event>, minDuration: int, maxWhen: int): (State, int)
  {
    if events == [] then (State([], 0, maxWhen), 0)
    else
      var (s, last) := RunOf(events[..|events| - 1], minDuration, maxWhen);
      var e := events[|events| - 1];
      if Timely(e, last) then (After(s, e, minDuration), if e.Registered? then e.t else e.later) else (s, last)
  }

  lemma {:induction false} WorkedKeeps(s: State, now: int, k: nat, minDuration: int, answer: nat -> (int, bool), clock: nat -> int)
    requires Ordered(s, now) && minDuration > 0 && forall i :: clock(i) >= now
    ensures var w := Worked(s, now, k, minDuration, answer, clock); Ordered(w, now) && (w.h != [] ==> w.h[0].when > now)
    decreases Count(s.h, IsDue(now))
  {
    hide Ordered, RunOne, Count, Worked;
    if s.h == [] || s.h[0].when > now {
      WorkedEnd(s, now, k, minDuration, answer, clock);
    } else {
      RunOneKeeps(s, minDuration, answer(k), clock(2 * k), clock(2 * k + 1), now);
      WorkedStep(s, now, k, minDuration, answer, clock);
      CountNonNegative(s.h, IsDue(now));
      WorkedKeeps(RunOne(s, minDuration, answer(k), clock(2 * k), clock(2 * k + 1)), now, k + 1, minDuration, answer, clock);
    }
  }

  lemma TickedKeeps(s: State, now: int, later: int, minDuration: int, answer: nat -> (int, bool), clock: nat -> int)
    requires Ordered(s, now) && 0 < now <= later && minDuration > 0 && forall i :: clock(i) >= now
    ensures Ordered(Ticked(s, now, minDuration, answer, clock), later) && Armed(Ticked(s, now, minDuration, answer, clock), later)
  {
    hide Worked, Heap;
    WorkedKeeps(s, now, 0, minDuration, answer, clock);
  }

  /** In every run zeroWhen never exceeds the deadline of the root. If every item was added before its deadline, the
      timer never oversleeps either. */
  lemma {:induction false} EveryRun(events: seq<Event>, minDuration: int, maxWhen: int)
    requires minDuration > 0
    ensures var (s, last) := RunOf(events, minDuration, maxWhen);
            && Ordered(s, last) && (s.h != [] ==> s.zeroWhen <= s.h[0].when)
            && (AddedInTime(events) ==> Armed(s, last))
  {
    hide Add, Ticked;
    if events == [] {
      EmptyIsHeap();
    } else {
      var front, e := events[..|events| - 1], events[|events| - 1];
      var (s, last) := RunOf(front, minDuration, maxWhen);
      EveryRun(front, minDuration, maxWhen);
      assert AddedInTime(events) ==> AddedInTime(front);
      if Timely(e, last) {
        EventKeeps(s, e, last, minDuration, AddedInTime(events));
      }
    }
  }

  ghost predicate AddedInTime(events: seq<Event>)
  {
    forall i :: 0 <= i < |events| && events[i].Registered? ==> events[i].t0 + events[i].duration > events[i].t
  }

  lemma EventKeeps(s: State, e: Event, last: int, minDuration: int, armed: bool)
    requires Ordered(s, last) && Timely(e, last) && minDuration > 0
    requires armed ==> Armed(s, last) && (e.Registered? ==> e.t0 + e.duration > e.t)
    ensures var s' := After(s, e, minDuration);
            var at := if e.Registered? then e.t else e.later;
            Ordered(s', at) && (armed ==> Armed(s', at))
  {
    hide Add, Ticked, Heap;
    if e.Registered? {
      var item := Item(e.client, e.t0 + e.duration);
      AddKeeps(s, item, last, e.t);
      if armed && BecomesRoot(s, item) {
        FutureIsArmed(s, item, last, e.t);
      }
    } else {
      TickedKeeps(s, e.now, e.later, minDuration, e.answer, e.clock);
    }
  }

  ghost predicate ArmedTo(events: seq<Event>, n: nat, minDuration: int, maxWhen: int)
    requires n <= |events|
  {
    var (s, last) := RunOf(events[..n], minDuration, maxWhen);
    Armed(s, last)
  }

  /** Event n adds a new root whose deadline is mistaken for the published one. */
  ghost predicate MistakenAt(events: seq<Event>, n: nat, minDuration: int, maxWhen: int)
    requires n < |events|
  {
    var ((s, last), e) := (RunOf(events[..n], minDuration, maxWhen), events[n]);
    e.Registered? && Timely(e, last) && var item := Item(e.client, e.t0 + e.duration); BecomesRoot(s, item) && Mistaken(s, item, e.t)
  }

  /** In a whole run the timer never oversleeps exactly if no deadline is ever mistaken for a published one. */
  lemma {:induction false} OversleptExactly(events: seq<Event>, minDuration: int, maxWhen: int)
    requires minDuration > 0
    ensures (forall n :: 0 <= n <= |events| ==> ArmedTo(events, n, minDuration, maxWhen))
            <==> forall n :: 0 <= n < |events| ==> !MistakenAt(events, n, minDuration, maxWhen)
  {
    hide ArmedTo, MistakenAt;
    if forall n :: 0 <= n <= |events| ==> ArmedTo(events, n, minDuration, maxWhen) {
      forall n | 0 <= n < |events|
        ensures !MistakenAt(events, n, minDuration, maxWhen)
      {
        assert ArmedTo(events, n, minDuration, maxWhen) && ArmedTo(events, n + 1, minDuration, maxWhen);
        ArmedOneMore(events, n, minDuration, maxWhen);
      }
    }
    if forall n :: 0 <= n < |events| ==> !MistakenAt(events, n, minDuration, maxWhen) {
      ArmedNothing(events, minDuration, maxWhen);
      for n := 0 to |events|
        invariant forall m :: 0 <= m <= n ==> ArmedTo(events, m, minDuration, maxWhen)
      {
        ArmedOneMore(events, n, minDuration, maxWhen);
      }
    }
  }

  lemma ArmedNothing(events: seq<Event>, minDuration: int, maxWhen: int)
    ensures ArmedTo(events, 0, minDuration, maxWhen)
  {
  }

  lemma ArmedOneMore(events: seq<Event>, n: nat, minDuration: int, maxWhen: int)
    requires minDuration > 0 && n < |events| && ArmedTo(events, n, minDuration, maxWhen)
    ensures ArmedTo(events, n + 1, minDuration, maxWhen) <==> !MistakenAt(events, n, minDuration, maxWhen)
  {
    hide Add, Ticked, Ordered, Mistaken, BecomesRoot, Armed;
    assert events[..n + 1][..n] == events[..n] && events[..n + 1][n] == events[n];
    EveryRun(events[..n], minDuration, maxWhen);
    var ((s, last), e) := (RunOf(events[..n], minDuration, maxWhen), events[n]);
    if Timely(e, last) {
      TimeOrdered(s, last, if e.Registered? then e.t else e.now);
      if e.Registered? {
        AddKeeps(s, Item(e.client, e.t0 + e.duration), last, e.t);
      } else {
        TickedKeeps(s, e.now, e.later, minDuration, e.answer, e.clock);
      }
    }
  }

  lemma TimeOrdered(s: State, last: int, t: int)
    requires Ordered(s, last) && last <= t
    ensures Ordered(s, t) && (Armed(s, last) ==> Armed(s, t))
  {
  }

  /** A run from the empty cleaner in which an item with a positive duration is overslept. The first item is due at 5.
      Register(1, 1) reads the clock at 4 and computes the deadline 5, then waits for the lock: the cleaner holds it
      from 5 to 6, cleans the first item and reschedules it to 9. When the new item is added its deadline equals the one
      still published, so the timer is not set, and the item waits until 9. */
  lemma LockWaitIsOverslept(maxWhen: int)
    ensures var events := LockWait();
            var (s, last) := RunOf(events, 1, maxWhen);
            && last == 6 && s.h != [] && s.h[0] == Item(1, 5) && s.wake == 9 && !Armed(s, last)
            && MistakenAt(events, 2, 1, maxWhen) && ArmedTo(events, 2, 1, maxWhen)
            && forall i :: 0 <= i < |events| && events[i].Registered? ==> events[i].duration > 0
  {
    hide RunOf, Ticked, Add, Heap;
    var events := LockWait();
    var e0, e1, e2 := events[0], events[1], events[2];
    var empty, ticked := State([], 0, maxWhen), State([Item(0, 9)], 5, 9);
    OnlyItem(empty, Item(0, 5), 0);
    RunStep([], e0, 1, maxWhen);
    assert [] + [e0] == [e0];
    LockHeld(maxWhen);
    RunStep([e0], e1, 1, maxWhen);
    assert [e0] + [e1] == events[..2];
    RunStep(events[..2], e2, 1, maxWhen);
    assert events[..2] + [e2] == events;
    SingleIsHeap(Item(0, 9));
    AddKeeps(ticked, Item(1, 5), 6, 6);
    AddIsHeap(ticked.h, Item(1, 5));
    AddedRoot(ticked, Item(1, 5), 6);
  }

  ghost function LockWait(): (events: seq<Event>)
    ensures |events| == 3
  {
    [Registered(0, 5, 0, 0), Fired(5, 6, _ => (3, false), _ => 6), Registered(1, 1, 4, 6)]
  }

  /** The round that holds the lock. */
  lemma LockHeld(maxWhen: int)
    ensures var first := State([Item(0, 5)], 5, 5);
            Ordered(first, 5) && After(first, LockWait()[1], 1) == State([Item(0, 9)], 5, 9)
  {
    var e := LockWait()[1];
    var first := State([Item(0, 5)], 5, 5);
    SingleIsHeap(Item(0, 5));
    var w := RunOne(first, 1, e.answer(0), e.clock(0), e.clock(1));
    assert [Item(0, 5)][0 := Item(0, 9)] == [Item(0, 9)];
    assert w == State([Item(0, 9)], 5, 5);
    WorkedStep(first, 5, 0, 1, e.answer, e.clock);
    WorkedEnd(w, 5, 1, 1, e.answer, e.clock);
  }

  lemma RunStep(events: seq<Event>, e: Event, minDuration: int, maxWhen: int)
    ensures RunOf([], minDuration, maxWhen) == (State([], 0, maxWhen), 0)
    ensures var (s, last) := RunOf(events, minDuration, maxWhen);
            RunOf(events + [e], minDuration, maxWhen)
            == if Timely(e, last) then (After(s, e, minDuration), if e.Registered? then e.t else e.later) else (s, last)
  {
    assert (events + [e])[..|events|] == events;
  }

  lemma AddedRoot(s: State, item: Item, t: int)
    requires Heap(s.h) && BecomesRoot(s, item) && item.when == s.zeroWhen
    ensures Add(s, item, t).wake == s.wake && Add(s, item, t).h != [] && Add(s, item, t).h[0] == item
  {
    hide Heap, SiftUp;
    AddIsHeap(s.h, item);
  }

  lemma OnlyItem(s: State, item: Item, t: int)
    requires s.h == [] && s.zeroWhen == 0 && item.when > 0
    ensures Add(s, item, t) == State([item], item.when, Max(item.when, t))
  {
    assert s.h + [item] == [item];
  }

  class DurationCleaner {
    var items: array<Item>
    var n: nat
    var zeroWhen: int
    var wake: int
    const minDuration: int

    ghost predicate Valid()
      reads this
    {
      n <= items.Length && minDuration > 0
    }

    ghost function View(): State
      reads this, items
      requires Valid()
    {
      State(items[..n], zeroWhen, wake)
    }

    constructor (minDuration: int, maxWhen: int)
      requires minDuration > 0
      ensures Valid() && View() == State([], 0, maxWhen) && fresh(items) && this.minDuration == minDuration
    {
      items, n, zeroWhen, wake := new Item[0], 0, 0, maxWhen;
      this.minDuration := minDuration;
    }

    method UpdateZero(t: int)
      requires Valid()
      modifies `zeroWhen, `wake
      ensures Valid() && View() == Update0When(old(View()), t)
      ensures zeroWhen == if n == 0 then 0 else items[0].when
      ensures n > 0 ==> (Armed(View(), t) <==> !Mistaken(old(View()), items[0], t))
    {
      if n == 0 {
        zeroWhen := 0;
      } else if zeroWhen != items[0].when {
        var du := items[0].when - t;
        zeroWhen := items[0].when;
        if du < 0 {
          du := 0;
        }
        wake := t + du;
      }
    }

    /** doDel0: the root is swapped behind the end, where Register finds the slot again. */
    method DelRoot(t: int)
      requires Valid() && n > 0 && Positive(items[..n][1..])
      modifies this, items
      ensures Valid() && items == old(items)
      ensures View() == Update0When(State(WithoutRoot(old(items[..n])), old(zeroWhen), old(wake)), t)
    {
      hide SiftDown;
      var last := n - 1;
      ghost var h := items[..n];
      if last > 0 {
        assert h[1..][last - 1] == h[last];
        items[0], items[last] := items[last], items[0];
      }
      n := last;
      if last > 0 {
        assert items[..last] == h[0 := h[last]][..last];
        SiftDownArray(items, n, 0);
      }
      UpdateZero(t);
    }

    method RunRoot(answer: (int, bool), t: int, t': int)
      requires Valid() && n > 0 && Positive(items[..n]) && Max(answer.0, minDuration) + t > 0
      modifies this, items
      ensures Valid() && items == old(items)
      ensures View() == RunOne(old(View()), minDuration, answer, t, t')
    {
      hide SiftDown, WithoutRoot, Update0When;
      var duration := answer.0;
      if duration < minDuration {
        duration := minDuration;
      }
      ghost var h := items[..n];
      items[0] := Item(items[0].client, duration + t);
      assert items[..n] == h[0 := items[0]];
      if answer.1 {
        assert items[..n][1..] == h[1..];
        DelRoot(t');
      } else {
        SiftDownArray(items, n, 0);
      }
    }

    /** Register reads the clock at t0 for the deadline and again at t, when it has the lock. A free slot behind the end
        is used again, or the array grows. */
    method Register(client: nat, duration: int, t0: int, t: int, ghost last: int)
      requires Valid() && t0 + duration > 0 && t0 <= t && last <= t && Ordered(View(), last)
      modifies this, items
      ensures Valid() && (items == old(items) || fresh(items))
      ensures View() == Add(old(View()), Item(client, t0 + duration), t) && Ordered(View(), t)
      ensures var item := Item(client, t0 + duration);
              Armed(View(), t) <==> if BecomesRoot(old(View()), item) then !Mistaken(old(View()), item, t) else Armed(old(View()), t)
      ensures t0 + duration > t && old(Armed(View(), last)) ==> Armed(View(), t)
    {
      hide Ordered, SiftUp, Mistaken, Update0When, Armed;
      var item := Item(client, t0 + duration);
      ghost var s := View();
      AddKeeps(s, item, last, t);
      if t0 + duration > t {
        if BecomesRoot(s, item) {
          FutureIsArmed(s, item, last, t);
        } else if Armed(s, last) {
          TimePasses(s, last, t);
        }
      }
      Append(item);
      var i := SiftUpArray(items, n, n - 1);
      if i == 0 {
        UpdateZero(t);
      }
    }

    method Append(item: Item)
      requires Valid()
      modifies `items, `n, items
      ensures Valid() && (items == old(items) || fresh(items))
      ensures n == old(n) + 1 && items[..n] == old(items[..n]) + [item]
    {
      if items.Length <= n {
        var a := new Item[2 * n + 1](_ => item);
        forall k | 0 <= k < n {
          a[k] := items[k];
        }
        items := a;
      } else {
        items[n] := item;
      }
      n := n + 1;
    }

    /** One round of startClen's loop: the timer has fired. The deadline for the next firing lies in the future, so
        the panic is unreachable, and the timer again does not oversleep. */
    method Tick(now: int, later: int, answer: nat -> (int, bool), clock: nat -> int)
      returns (cleaned: seq<Item>)
      requires Valid() && 0 < now <= later && Ordered(View(), now)
      requires forall k :: now <= clock(k) <= later
      modifies this, items
      ensures Valid() && items == old(items)
      ensures Working(View(), old(items[..n]), cleaned, Again(cleaned, answer, clock, minDuration), now)
      ensures forall k :: 0 <= k < n ==> items[k].when > now
      ensures Ordered(View(), later) && Armed(View(), later)
      ensures View() == Ticked(old(View()), now, minDuration, answer, clock)
    {
      hide Heap, Worked;
      var pollUntil, ran;
      pollUntil, ran, cleaned := CheckItems(now, answer, clock);
      if pollUntil > 0 {
        var du := pollUntil - now;
        assert du > 0;
        wake := now + du;
      }
    }

    /** checkItems. The calls to Clean, in order, are `cleaned`; the k-th call answers answer(k), and every reading
        of the clock lies between now and the end of the call. */
    method CheckItems(now: int, answer: nat -> (int, bool), clock: nat -> int)
      returns (pollUntil: int, ran: bool, cleaned: seq<Item>)
      requires Valid() && now > 0 && Ordered(View(), now)
      requires forall k :: clock(k) >= now
      modifies this, items
      ensures Valid() && items == old(items)
      ensures Working(View(), old(items[..n]), cleaned, Again(cleaned, answer, clock, minDuration), now)
      ensures forall k :: 0 <= k < n ==> items[k].when > now
      ensures n > 0 ==> now < pollUntil <= items[0].when
      ensures n == 0 ==> pollUntil == 0
      ensures ran <==> cleaned != []
      ensures now < old(zeroWhen) ==> View() == old(View()) && pollUntil == zeroWhen
      ensures now >= old(zeroWhen) ==>
                View() == Worked(old(View()), now, 0, minDuration, answer, clock) && (n > 0 ==> pollUntil == items[0].when)
    {
      hide Ordered, RunOne, Working, Count, Worked, Going;
      cleaned, ran, pollUntil := [], false, 0;
      ghost var start := View();
      GoingStarts(start, now, minDuration, answer, clock);
      if now < zeroWhen {
        NothingDue(start, now);
        return zeroWhen, false, cleaned;
      }
      while n > 0
        invariant Valid() && items == old(items) && pollUntil == 0 && (ran <==> cleaned != [])
        invariant Going(View(), start, cleaned, now, minDuration, answer, clock)
        decreases Count(View().h, IsDue(now))
      {
        GoingOn(View(), start, cleaned, now, minDuration, answer, clock);
        if items[0].when > now {
          pollUntil := items[0].when;
          break;
        }
        var k := |cleaned|;
        GoingOne(View(), start, cleaned, now, minDuration, answer, clock);
        cleaned := cleaned + [items[0]];
        RunRoot(answer(k), clock(2 * k), clock(2 * k + 1));
        ran := true;
      }
      GoingEnds(View(), start, cleaned, now, minDuration, answer, clock);
    }
  }

  /** After some rounds of checkItems from start. */
  ghost predicate Going(s: State, start: State, cleaned: seq<Item>, now: int, minDuration: int,
                        answer: nat -> (int, bool), clock: nat -> int)
  {
    && minDuration > 0 && (forall i :: clock(i) >= now) && Ordered(start, now) && Ordered(s, now)
    && Working(s, start.h, cleaned, Again(cleaned, answer, clock, minDuration), now)
    && Worked(s, now, |cleaned|, minDuration, answer, clock) == Worked(start, now, 0, minDuration, answer, clock)
  }

  lemma GoingStarts(s: State, now: int, minDuration: int, answer: nat -> (int, bool), clock: nat -> int)
    requires Ordered(s, now) && minDuration > 0 && forall i :: clock(i) >= now
    ensures Going(s, s, [], now, minDuration, answer, clock) && Working(s, s.h, [], [], now)
  {
    hide Worked;
    WorkingStarts(s, now);
  }

  lemma GoingOn(s: State, start: State, cleaned: seq<Item>, now: int, minDuration: int,
                answer: nat -> (int, bool), clock: nat -> int)
    requires Going(s, start, cleaned, now, minDuration, answer, clock) && s.h != []
    ensures Positive(s.h) && Count(s.h, IsDue(now)) >= 0
  {
    hide Worked;
    RoundStarts(s, start.h, cleaned, Again(cleaned, answer, clock, minDuration), now);
  }

  lemma GoingOne(s: State, start: State, cleaned: seq<Item>, now: int, minDuration: int,
                 answer: nat -> (int, bool), clock: nat -> int)
    requires Going(s, start, cleaned, now, minDuration, answer, clock) && s.h != [] && s.h[0].when <= now
    ensures var k := |cleaned|;
            var s' := RunOne(s, minDuration, answer(k), clock(2 * k), clock(2 * k + 1));
            && Going(s', start, cleaned + [s.h[0]], now, minDuration, answer, clock)
            && Count(s'.h, IsDue(now)) < Count(s.h, IsDue(now))
  {
    hide Ordered, RunOne, Working, Count, Worked;
    var k := |cleaned|;
    assert (cleaned + [s.h[0]])[..k] == cleaned;
    assert (cleaned + [s.h[0]])[k] == s.h[0];
    var again := Again(cleaned, answer, clock, minDuration);
    assert again + [] == again;
    WorkedStep(s, now, k, minDuration, answer, clock);
    WorkingOne(s, start.h, cleaned, again, now, minDuration, answer(k), clock(2 * k), clock(2 * k + 1));
  }

  lemma GoingEnds(s: State, start: State, cleaned: seq<Item>, now: int, minDuration: int,
                  answer: nat -> (int, bool), clock: nat -> int)
    requires Going(s, start, cleaned, now, minDuration, answer, clock) && (s.h == [] || s.h[0].when > now)
    ensures s == Worked(start, now, 0, minDuration, answer, clock)
    ensures Working(s, start.h, cleaned, Again(cleaned, answer, clock, minDuration), now)
    ensures forall k :: 0 <= k < |s.h| ==> s.h[k].when > now
  {
    hide Worked, Working;
    WorkedEnd(s, now, |cleaned|, minDuration, answer, clock);
    if s.h != [] {
      RoundStarts(s, start.h, cleaned, Again(cleaned, answer, clock, minDuration), now);
    }
  }

  lemma WorkingStarts(s: State, now: int)
    requires Ordered(s, now)
    ensures Working(s, s.h, [], [], now)
  {
  }

  /** The early return of checkItems skips nothing that is due. */
  lemma NothingDue(s: State, now: int)
    requires Ordered(s, now) && 0 < now < s.zeroWhen
    ensures s.h != [] && s.zeroWhen <= s.h[0].when
    ensures forall k :: 0 <= k < |s.h| ==> s.h[k].when > now
  {
    forall k | 0 <= k < |s.h|
      ensures s.h[k].when > now
    {
      RootIsFirst(s.h, k);
    }
  }

  lemma RoundStarts(s: State, start: seq<Item>, cleaned: seq<Item>, rescheduled: seq<Item>, now: int)
    requires Working(s, start, cleaned, rescheduled, now) && s.h != []
    ensures Positive(s.h) && Count(s.h, IsDue(now)) >= 0
    ensures s.h[0].when > now ==> forall k :: 0 <= k < |s.h| ==> s.h[k].when > now
  {
    CountNonNegative(s.h, IsDue(now));
    forall k | 0 <= k < |s.h|
      ensures s.h[0].when <= s.h[k].when
    {
      RootIsFirst(s.h, k);
    }
  }
}
