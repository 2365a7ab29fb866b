/** The reference counts of linkBufferNode: Refer, Release and the split of WriteDirect, and when the memory behind a
    node is given back. */
module NodeRefs {
  import opened Ledger

  /** A node: its reference count; the node it was referred from (None: it is a root); the memory its buf points into,
      named by the node it was allocated for; whether the node gives that memory back when its count reaches zero;
      whether the memory came from the memory pool at all; whether the buffer that holds the node has yet to release
      it; whether its count has reached zero. */
  datatype RefNode = RefNode(refer: int, origin: Option<nat>, mem: nat, reusable: bool, ours: bool, held: bool, freed: bool)

  /** All nodes ever made, and the memory given back, in order. */
  datatype Table = Table(nodes: seq<RefNode>, frees: seq<nat>)

  /** 1 for every node that is held and was referred from r. */
  function Shares(r: nat): RefNode -> int
  {
    (nd: RefNode) => if nd.held && nd.origin == Some(r) then 1 else 0
  }

  /** 1 for every node that has given memory m back. */
  function Gave(m: nat): RefNode -> int
  {
    (nd: RefNode) => if nd.reusable && nd.freed && nd.mem == m then 1 else 0
  }

  function Same(m: nat): nat -> int
  {
    (x: nat) => if x == m then 1 else 0
  }

  function Root(t: Table, k: nat): nat
    requires k < |t.nodes|
  {
    if t.nodes[k].origin.Some? then t.nodes[k].origin.value else k
  }

  // ---- the steps ----

  /** newLinkBufferNode: with memory from the pool, or readonly over memory of the caller. */
  function Created(t: Table, ours: bool): Table
  {
    t.(nodes := t.nodes + [RefNode(1, None, |t.nodes|, ours, ours, true, false)])
  }

  /** Refer of node k: the new node comes last and is readonly. */
  function Referred(t: Table, k: nat): Table
    requires k < |t.nodes| && Root(t, k) < |t.nodes|
  {
    var r := Root(t, k);
    var root := t.nodes[r];
    t.(nodes := t.nodes[r := root.(refer := root.refer + 1)]
                + [RefNode(1, Some(r), root.mem, false, root.ours, true, false)])
  }

  /** WriteDirect splits node k: the new node, which comes last, points into the same memory without a reference to k,
      and takes over giving it back. */
  function SplitOff(t: Table, k: nat): Table
    requires k < |t.nodes|
  {
    var nd := t.nodes[k];
    t.(nodes := t.nodes[k := nd.(reusable := false)] + [RefNode(1, None, nd.mem, true, nd.ours, true, false)])
  }

  /** One reference less. */
  function Dropped(t: Table, k: nat): Table
    requires k < |t.nodes|
  {
    var nd := t.nodes[k];
    Table(t.nodes[k := nd.(refer := nd.refer - 1, freed := nd.refer == 1)],
          if nd.refer == 1 && nd.reusable then t.frees + [nd.mem] else t.frees)
  }

  function Unheld(t: Table, k: nat): Table
    requires k < |t.nodes|
  {
    t.(nodes := t.nodes[k := t.nodes[k].(held := false)])
  }

  /** Release of node k by the buffer that holds it: first of its origin, then of itself. */
  function Released(t: Table, k: nat): Table
    requires k < |t.nodes| && Root(t, k) < |t.nodes|
  {
    var t' := if t.nodes[k].origin.Some? then Dropped(t, t.nodes[k].origin.value) else t;
    Unheld(Dropped(t', k), k)
  }

  // ---- what every step keeps ----

  ghost predicate NodeOk(ns: seq<RefNode>, k: nat)
    requires k < |ns|
  {
    var nd := ns[k];
    && (nd.freed <==> nd.refer == 0) && nd.mem <= k
    && (nd.origin.None? ==> nd.refer == (if nd.held then 1 else 0) + Count(ns, Shares(k)))
    && (nd.origin.Some? ==>
          && nd.refer == (if nd.held then 1 else 0) && !nd.reusable
          && nd.origin.value < |ns| && ns[nd.origin.value].origin.None? && ns[nd.origin.value].mem == nd.mem)
  }

  ghost predicate FreesOk(t: Table, m: nat)
  {
    Count(t.frees, Same(m)) == Count(t.nodes, Gave(m))
  }

  ghost predicate Counted(t: Table)
  {
    && (forall k :: 0 <= k < |t.nodes| ==> NodeOk(t.nodes, k))
    && (forall m: nat :: FreesOk(t, m))
  }

  lemma {:induction false} SharersCount(ns: seq<RefNode>, r: nat)
    ensures Count(ns, Shares(r)) >= 0
    ensures Count(ns, Shares(r)) == 0 <==> forall k :: 0 <= k < |ns| ==> !(ns[k].held && ns[k].origin == Some(r))
  {
    if ns != [] {
      SharersCount(ns[..|ns| - 1], r);
      var last := ns[|ns| - 1];
      forall k | 0 <= k < |ns| - 1
        ensures ns[..|ns| - 1][k] == ns[k]
      {
      }
      assert Count(ns, Shares(r)) == Count(ns[..|ns| - 1], Shares(r)) + Shares(r)(last);
    }
  }

  lemma NobodyShares(t: Table, k: nat)
    requires Counted(t) && k >= |t.nodes|
    ensures Count(t.nodes, Shares(k)) == 0
  {
    forall j | 0 <= j < |t.nodes|
      ensures t.nodes[j].origin != Some(k)
    {
      assert NodeOk(t.nodes, j);
    }
    SharersCount(t.nodes, k);
  }

  /** A held node and the root it was referred from have not been freed. */
  lemma HeldCounts(t: Table, k: nat)
    requires Counted(t) && k < |t.nodes| && t.nodes[k].held
    ensures Root(t, k) < |t.nodes| && t.nodes[Root(t, k)].origin.None? && t.nodes[Root(t, k)].mem == t.nodes[k].mem
    ensures t.nodes[k].refer > 0 && !t.nodes[k].freed && t.nodes[Root(t, k)].refer > 0 && !t.nodes[Root(t, k)].freed
    ensures t.nodes[k].origin.Some? ==> t.nodes[k].refer == 1 && !t.nodes[k].reusable
  {
    hide Count;
    assert NodeOk(t.nodes, k);
    var r := Root(t, k);
    assert NodeOk(t.nodes, r);
    SharersCount(t.nodes, r);
  }

  lemma KeepCreated(t: Table, ours: bool)
    requires Counted(t)
    ensures Counted(Created(t, ours))
  {
    hide Count;
    var t' := Created(t, ours);
    var x := t'.nodes[|t.nodes|];
    forall k | 0 <= k < |t'.nodes|
      ensures NodeOk(t'.nodes, k)
    {
      CountPush(t.nodes, x, Shares(k));
      if k < |t.nodes| {
        assert NodeOk(t.nodes, k);
      } else {
        NobodyShares(t, k);
      }
    }
    forall m: nat
      ensures FreesOk(t', m)
    {
      assert FreesOk(t, m);
      CountPush(t.nodes, x, Gave(m));
    }
  }

  lemma KeepReferred(t: Table, k: nat)
    requires Counted(t) && k < |t.nodes| && t.nodes[k].held
    ensures Root(t, k) < |t.nodes| && Counted(Referred(t, k))
  {
    hide Count;
    HeldCounts(t, k);
    var r := Root(t, k);
    var mid := t.nodes[r := t.nodes[r].(refer := t.nodes[r].refer + 1)];
    var t' := Referred(t, k);
    var x := t'.nodes[|t.nodes|];
    forall j | 0 <= j < |t'.nodes|
      ensures NodeOk(t'.nodes, j)
    {
      CountUpdate(t.nodes, r, mid[r], Shares(j));
      CountPush(mid, x, Shares(j));
      assert NodeOk(t.nodes, r);
      if j < |t.nodes| {
        assert NodeOk(t.nodes, j);
      } else {
        NobodyShares(t, j);
      }
    }
    forall m: nat
      ensures FreesOk(t', m)
    {
      assert FreesOk(t, m);
      CountUpdate(t.nodes, r, mid[r], Gave(m));
      CountPush(mid, x, Gave(m));
    }
  }

  lemma KeepSplitOff(t: Table, k: nat)
    requires Counted(t) && k < |t.nodes| && t.nodes[k].held && t.nodes[k].origin.None?
    ensures Counted(SplitOff(t, k))
  {
    hide Count;
    HeldCounts(t, k);
    var mid := t.nodes[k := t.nodes[k].(reusable := false)];
    var t' := SplitOff(t, k);
    var x := t'.nodes[|t.nodes|];
    forall j | 0 <= j < |t'.nodes|
      ensures NodeOk(t'.nodes, j)
    {
      CountUpdate(t.nodes, k, mid[k], Shares(j));
      CountPush(mid, x, Shares(j));
      assert NodeOk(t.nodes, k);
      if j < |t.nodes| {
        assert NodeOk(t.nodes, j);
      } else {
        NobodyShares(t, j);
      }
    }
    forall m: nat
      ensures FreesOk(t', m)
    {
      assert FreesOk(t, m);
      CountUpdate(t.nodes, k, mid[k], Gave(m));
      CountPush(mid, x, Gave(m));
    }
  }

  /** One reference less, where the counts are kept for a node that is about to be released by its holder. */
  lemma DroppedFrees(t: Table, k: nat, m: nat)
    requires k < |t.nodes| && t.nodes[k].refer > 0 && !t.nodes[k].freed && FreesOk(t, m)
    ensures FreesOk(Dropped(t, k), m)
  {
    hide Count;
    var t' := Dropped(t, k);
    CountUpdate(t.nodes, k, t'.nodes[k], Gave(m));
    if |t'.frees| > |t.frees| {
      CountPush(t.frees, t.nodes[k].mem, Same(m));
    }
  }

  lemma UnheldFrees(t: Table, k: nat, m: nat)
    requires k < |t.nodes| && FreesOk(t, m)
    ensures FreesOk(Unheld(t, k), m)
  {
    hide Count;
    CountUpdate(t.nodes, k, Unheld(t, k).nodes[k], Gave(m));
  }

  lemma ReleasedFrees(t: Table, k: nat, m: nat)
    requires Counted(t) && k < |t.nodes| && t.nodes[k].held
    ensures Root(t, k) < |t.nodes| && FreesOk(Released(t, k), m)
  {
    hide Count;
    HeldCounts(t, k);
    assert FreesOk(t, m);
    var t' := if t.nodes[k].origin.Some? then Dropped(t, t.nodes[k].origin.value) else t;
    if t.nodes[k].origin.Some? {
      DroppedFrees(t, t.nodes[k].origin.value, m);
    }
    DroppedFrees(t', k, m);
    UnheldFrees(Dropped(t', k), k, m);
  }

  lemma KeepReleased(t: Table, k: nat)
    requires Counted(t) && k < |t.nodes| && t.nodes[k].held
    ensures Root(t, k) < |t.nodes| && Counted(Released(t, k))
  {
    hide Count;
    HeldCounts(t, k);
    var r := Root(t, k);
    assert NodeOk(t.nodes, k) && NodeOk(t.nodes, r);
    var t' := Released(t, k);
    SharersCount(t.nodes, r);
    forall j | 0 <= j < |t'.nodes|
      ensures NodeOk(t'.nodes, j)
    {
      assert NodeOk(t.nodes, j);
      ReleasedShares(t, k, j);
    }
    forall m: nat
      ensures FreesOk(t', m)
    {
      ReleasedFrees(t, k, m);
    }
  }

  lemma ReleasedShares(t: Table, k: nat, j: nat)
    requires k < |t.nodes| && Root(t, k) < |t.nodes|
    ensures Count(Released(t, k).nodes, Shares(j)) ==
            Count(t.nodes, Shares(j)) - if t.nodes[k].held && t.nodes[k].origin == Some(j) then 1 else 0
  {
    hide Count;
    var o := t.nodes[k].origin;
    var t1 := if o.Some? then Dropped(t, o.value) else t;
    if o.Some? {
      CountUpdate(t.nodes, o.value, t1.nodes[o.value], Shares(j));
    }
    CountUpdate(t1.nodes, k, Dropped(t1, k).nodes[k], Shares(j));
    CountUpdate(Dropped(t1, k).nodes, k, Released(t, k).nodes[k], Shares(j));
  }

  // ---- when memory is given back ----

  /** Node r gives memory m back when its count reaches zero. */
  predicate Giver(t: Table, r: nat, m: nat)
  {
    r < |t.nodes| && t.nodes[r].reusable && t.nodes[r].mem == m
  }

  /** The buffer that holds r, and every buffer with a node referred from r, have released it. */
  ghost predicate AllReleased(t: Table, r: nat)
  {
    r < |t.nodes| && !t.nodes[r].held && forall k :: 0 <= k < |t.nodes| ==> !(t.nodes[k].held && t.nodes[k].origin == Some(r))
  }

  lemma FreedRoot(t: Table, r: nat)
    requires Counted(t) && r < |t.nodes| && t.nodes[r].origin.None?
    ensures t.nodes[r].freed <==> AllReleased(t, r)
  {
    assert NodeOk(t.nodes, r);
    SharersCount(t.nodes, r);
  }

  lemma GiverIsRoot(t: Table, r: nat, m: nat)
    requires Counted(t) && Giver(t, r, m)
    ensures t.nodes[r].origin.None?
  {
    assert NodeOk(t.nodes, r);
  }

  lemma {:induction false} InList(s: seq<nat>, m: nat)
    ensures m in s <==> Count(s, Same(m)) > 0
  {
    if s != [] {
      InList(s[..|s| - 1], m);
      CountNonNegative(s[..|s| - 1], Same(m));
      assert s == s[..|s| - 1] + [s[|s| - 1]];
    }
  }

  lemma {:induction false} SomeGave(ns: seq<RefNode>, m: nat) returns (r: nat)
    requires Count(ns, Gave(m)) > 0
    ensures r < |ns| && ns[r].reusable && ns[r].freed && ns[r].mem == m
  {
    if Gave(m)(ns[|ns| - 1]) > 0 {
      r := |ns| - 1;
    } else {
      r := SomeGave(ns[..|ns| - 1], m);
    }
  }

  /** Memory has been given back exactly when some node that gives it back, with all that was referred from that node,
      has been released. */
  lemma GivenBackExactly(t: Table, m: nat)
    requires Counted(t)
    ensures m in t.frees <==> exists r :: Giver(t, r, m) && AllReleased(t, r)
  {
    hide Count;
    assert FreesOk(t, m);
    InList(t.frees, m);
    if m in t.frees {
      var r := SomeGave(t.nodes, m);
      GiverIsRoot(t, r, m);
      FreedRoot(t, r);
    }
    if r :| Giver(t, r, m) && AllReleased(t, r) {
      GiverIsRoot(t, r, m);
      FreedRoot(t, r);
      CountMember(t.nodes, r, Gave(m));
    }
  }

  /** A node that is held shows memory that was given back exactly if that memory has another giver than the root of the
      node, which with all that was referred from it has been released. */
  lemma HeldExactly(t: Table, k: nat)
    requires Counted(t) && k < |t.nodes| && t.nodes[k].held
    ensures t.nodes[k].mem in t.frees
            <==> exists r :: Giver(t, r, t.nodes[k].mem) && r != Root(t, k) && AllReleased(t, r)
  {
    hide Count;
    var m := t.nodes[k].mem;
    GivenBackExactly(t, m);
    HeldCounts(t, k);
    FreedRoot(t, Root(t, k));
  }

  /** Release of node k gives memory back exactly if its root is a giver with no other holder. Somebody still holds that
      memory exactly if another held node has it. Both can be checked before the call. */
  lemma ReleaseGives(t: Table, k: nat)
    requires Counted(t) && k < |t.nodes| && t.nodes[k].held
    ensures Root(t, k) < |t.nodes|
    ensures var r, m := Root(t, k), t.nodes[k].mem;
            && Released(t, k).frees == t.frees + (if t.nodes[r].refer == 1 && t.nodes[r].reusable then [m] else [])
            && ((exists j :: 0 <= j < |t.nodes| && Released(t, k).nodes[j].held && Released(t, k).nodes[j].mem == m)
                <==> exists j :: 0 <= j < |t.nodes| && j != k && t.nodes[j].held && t.nodes[j].mem == m)
  {
    hide Count;
    HeldCounts(t, k);
    var r, m, t' := Root(t, k), t.nodes[k].mem, Released(t, k);
    assert forall j :: 0 <= j < |t.nodes| ==> t'.nodes[j].held == (j != k && t.nodes[j].held) && t'.nodes[j].mem == t.nodes[j].mem;
    if r == k {
      assert t'.frees == t.frees + (if t.nodes[r].refer == 1 && t.nodes[r].reusable then [m] else []);
    } else {
      assert Dropped(t, r).nodes[k] == t.nodes[k];
    }
  }

  // ---- one giver per memory ----

  /** No memory has two givers. */
  ghost predicate OneGiver(t: Table)
  {
    forall i: nat, j: nat, m: nat :: Giver(t, i, m) && Giver(t, j, m) ==> i == j
  }

  /** Every giver's memory came from the pool. */
  ghost predicate GivesOurs(t: Table)
  {
    forall k :: 0 <= k < |t.nodes| && t.nodes[k].reusable ==> t.nodes[k].ours
  }

  lemma {:induction false} OnlyOneGave(ns: seq<RefNode>, m: nat)
    requires forall i, j :: 0 <= i < j < |ns| && ns[i].reusable && ns[j].reusable ==> ns[i].mem != ns[j].mem
    ensures Count(ns, Gave(m)) <= 1
    ensures Count(ns, Gave(m)) == 1 ==> exists i :: 0 <= i < |ns| && ns[i].reusable && ns[i].mem == m
  {
    if ns != [] {
      var front := ns[..|ns| - 1];
      OnlyOneGave(front, m);
      CountNonNegative(front, Gave(m));
      if Count(front, Gave(m)) == 1 {
        var i :| 0 <= i < |front| && front[i].reusable && front[i].mem == m;
        assert ns[i] == front[i];
      }
    }
  }

  /** With one giver memory is given back exactly when the giver and all that was referred from it are released, and
      never twice. */
  lemma FreedExactly(t: Table, r: nat)
    requires Counted(t) && OneGiver(t) && r < |t.nodes| && t.nodes[r].reusable
    ensures t.nodes[r].mem in t.frees <==> AllReleased(t, r)
    ensures Count(t.frees, Same(t.nodes[r].mem)) <= 1
  {
    hide Count;
    var m := t.nodes[r].mem;
    assert Giver(t, r, m);
    GivenBackExactly(t, m);
    assert FreesOk(t, m);
    forall i, j | 0 <= i < j < |t.nodes| && t.nodes[i].reusable && t.nodes[j].reusable
      ensures t.nodes[i].mem != t.nodes[j].mem
    {
      assert Giver(t, i, t.nodes[i].mem) && Giver(t, j, t.nodes[j].mem);
    }
    OnlyOneGave(t.nodes, m);
  }

  // ---- memory that is given back twice ----

  lemma {:induction false} TwoGave(ns: seq<RefNode>, m: nat) returns (i: nat, j: nat)
    requires Count(ns, Gave(m)) >= 2
    ensures i < j < |ns| && Gave(m)(ns[i]) == 1 && Gave(m)(ns[j]) == 1
  {
    var front := ns[..|ns| - 1];
    if Gave(m)(ns[|ns| - 1]) == 1 {
      j := |ns| - 1;
      i := SomeGave(front, m);
    } else {
      i, j := TwoGave(front, m);
    }
  }

  /** Memory has been given back more than once exactly when two of its givers, each with all that was referred from it,
      have been released. */
  lemma TwiceExactly(t: Table, m: nat)
    requires Counted(t)
    ensures Count(t.frees, Same(m)) >= 2
            <==> exists i, j :: i < j && Giver(t, i, m) && AllReleased(t, i) && Giver(t, j, m) && AllReleased(t, j)
  {
    hide Count, Counted;
    assert FreesOk(t, m) by { FreesCount(t, m); }
    if Count(t.frees, Same(m)) >= 2 {
      var i, j := TwoGave(t.nodes, m);
      GiverGave(t, i, m);
      GiverGave(t, j, m);
    }
    if i, j :| i < j && Giver(t, i, m) && AllReleased(t, i) && Giver(t, j, m) && AllReleased(t, j) {
      GiverGave(t, i, m);
      GiverGave(t, j, m);
      CountTwo(t.nodes, i, j, Gave(m));
    }
  }

  lemma FreesCount(t: Table, m: nat)
    requires Counted(t)
    ensures FreesOk(t, m)
  {
  }

  lemma GiverGave(t: Table, r: nat, m: nat)
    requires Counted(t) && Giver(t, r, m)
    ensures Gave(m)(t.nodes[r]) == 1 <==> AllReleased(t, r)
  {
    hide Counted;
    GiverIsRoot(t, r, m);
    FreedRoot(t, r);
  }

  // ---- every run ----

  datatype Step = Create(ours: bool) | Refer(k: nat) | Split(k: nat) | Release(k: nat)

  /** A buffer refers to, splits and releases only nodes that it holds, and splits only roots. */
  predicate Enabled(t: Table, step: Step)
  {
    step.Create?
    || (step.k < |t.nodes| && t.nodes[step.k].held && Root(t, step.k) < |t.nodes|
        && (step.Split? ==> t.nodes[step.k].origin.None?))
  }

  function After(t: Table, step: Step): Table
    requires Enabled(t, step)
  {
    match step
    case Create(ours) => Created(t, ours)
    case Refer(k) => Referred(t, k)
    case Split(k) => SplitOff(t, k)
    case Release(k) => Released(t, k)
  }

  /** The table after a list of steps; a step that is not enabled is not taken. */
  function Run(steps: seq<Step>): Table
  {
    if steps == [] then Table([], [])
    else
      var t, step := Run(steps[..|steps| - 1]), steps[|steps| - 1];
      if Enabled(t, step) then After(t, step) else t
  }

  lemma KeepAfter(t: Table, step: Step)
    requires Counted(t) && Enabled(t, step)
    ensures Counted(After(t, step))
  {
    hide Counted, Created, Referred, SplitOff, Released;
    match step
    case Create(ours) => KeepCreated(t, ours);
    case Refer(k) => KeepReferred(t, k);
    case Split(k) => KeepSplitOff(t, k);
    case Release(k) => KeepReleased(t, k);
  }

  /** In every run the counts are those of the holders. A held node shows memory that was given back exactly if that
      memory has another giver than the root of the node, with all that was referred from it released. */
  lemma {:induction false} EveryRun(steps: seq<Step>)
    ensures Counted(Run(steps))
    ensures forall k :: 0 <= k < |Run(steps).nodes| && Run(steps).nodes[k].held ==>
              (Run(steps).nodes[k].mem in Run(steps).frees
               <==> exists r :: Giver(Run(steps), r, Run(steps).nodes[k].mem) && r != Root(Run(steps), k) && AllReleased(Run(steps), r))
  {
    hide Counted, After, Enabled;
    if steps == [] {
      EmptyCounted();
    } else {
      var t, step := Run(steps[..|steps| - 1]), steps[|steps| - 1];
      EveryRun(steps[..|steps| - 1]);
      if Enabled(t, step) {
        KeepAfter(t, step);
      }
    }
    var now := Run(steps);
    forall k | 0 <= k < |now.nodes| && now.nodes[k].held
      ensures now.nodes[k].mem in now.frees
              <==> exists r :: Giver(now, r, now.nodes[k].mem) && r != Root(now, k) && AllReleased(now, r)
    {
      HeldExactly(now, k);
    }
  }

  lemma EmptyCounted()
    ensures Counted(Table([], []))
  {
    forall m: nat
      ensures FreesOk(Table([], []), m)
    {
    }
  }

  /** Nothing that is held has been given back. */
  ghost predicate Safe(t: Table)
  {
    forall k :: 0 <= k < |t.nodes| && t.nodes[k].held ==> t.nodes[k].mem !in t.frees
  }

  /** The release of node k gives its memory back although another node that is held has it. */
  ghost predicate TooEarly(t: Table, k: nat)
    requires k < |t.nodes| && Root(t, k) < |t.nodes|
  {
    && t.nodes[Root(t, k)].refer == 1 && t.nodes[Root(t, k)].reusable
    && exists j :: 0 <= j < |t.nodes| && j != k && t.nodes[j].held && t.nodes[j].mem == t.nodes[k].mem
  }

  /** The only step that makes a safe state unsafe is such a release, and it always does. */
  lemma SafeExactly(t: Table, step: Step)
    requires Counted(t) && Enabled(t, step) && Safe(t)
    ensures Safe(After(t, step)) <==> !(step.Release? && TooEarly(t, step.k))
  {
    hide Count, Counted;
    var t' := After(t, step);
    if step.Release? {
      ReleaseSafe(t, step.k);
    } else if step.Create? {
      FreesBelow(t, |t.nodes|);
    } else {
      HeldCounts(t, step.k);
      assert t'.frees == t.frees;
      assert forall j :: 0 <= j < |t.nodes| ==> t'.nodes[j].held == t.nodes[j].held && t'.nodes[j].mem == t.nodes[j].mem;
      assert t'.nodes[|t.nodes|].mem == t.nodes[step.k].mem;
    }
  }

  ghost predicate SafeTo(steps: seq<Step>, n: nat)
    requires n <= |steps|
  {
    Safe(Run(steps[..n]))
  }

  /** Step n of the run is a release that comes too early. */
  ghost predicate EarlyAt(steps: seq<Step>, n: nat)
    requires n < |steps|
  {
    var t, step := Run(steps[..n]), steps[n];
    step.Release? && Enabled(t, step) && Root(t, step.k) < |t.nodes| && TooEarly(t, step.k)
  }

  /** In a whole run nothing that is held is ever given back exactly if no release comes too early. */
  lemma {:induction false} SafeRuns(steps: seq<Step>)
    ensures (forall n :: 0 <= n <= |steps| ==> SafeTo(steps, n)) <==> forall n :: 0 <= n < |steps| ==> !EarlyAt(steps, n)
  {
    hide Run, Safe, EarlyAt;
    if forall n :: 0 <= n <= |steps| ==> SafeTo(steps, n) {
      forall n | 0 <= n < |steps|
        ensures !EarlyAt(steps, n)
      {
        assert SafeTo(steps, n) && SafeTo(steps, n + 1);
        SafeOneMore(steps, n);
      }
    }
    if forall n :: 0 <= n < |steps| ==> !EarlyAt(steps, n) {
      SafeNothing(steps);
      for n := 0 to |steps|
        invariant forall m :: 0 <= m <= n ==> SafeTo(steps, m)
      {
        SafeOneMore(steps, n);
      }
    }
  }

  lemma SafeNothing(steps: seq<Step>)
    ensures SafeTo(steps, 0)
  {
  }

  lemma SafeOneMore(steps: seq<Step>, n: nat)
    requires n < |steps| && SafeTo(steps, n)
    ensures SafeTo(steps, n + 1) <==> !EarlyAt(steps, n)
  {
    hide Safe, TooEarly, Counted, After, Enabled;
    var t, step := Run(steps[..n]), steps[n];
    assert steps[..n + 1][..n] == steps[..n] && steps[..n + 1][n] == step;
    EveryRun(steps[..n]);
    if Enabled(t, step) {
      SafeExactly(t, step);
      if step.Release? { EnabledRoot(t, step); }
    }
  }

  lemma EnabledRoot(t: Table, step: Step)
    requires Counted(t) && Enabled(t, step) && step.Release?
    ensures Root(t, step.k) < |t.nodes|
  {
    HeldCounts(t, step.k);
  }

  lemma ReleaseSafe(t: Table, k: nat)
    requires Counted(t) && k < |t.nodes| && t.nodes[k].held && Root(t, k) < |t.nodes| && Safe(t)
    ensures Safe(Released(t, k)) <==> !TooEarly(t, k)
  {
    hide Count, Counted;
    var t' := Released(t, k);
    ReleaseGives(t, k);
    assert forall j :: 0 <= j < |t.nodes| ==> t'.nodes[j].held == (j != k && t.nodes[j].held) && t'.nodes[j].mem == t.nodes[j].mem;
  }

  lemma FreesBelow(t: Table, m: nat)
    requires Counted(t) && m >= |t.nodes|
    ensures m !in t.frees
  {
    hide Count;
    assert FreesOk(t, m);
    InList(t.frees, m);
    forall r | 0 <= r < |t.nodes|
      ensures t.nodes[r].mem <= r
    {
      assert NodeOk(t.nodes, r);
    }
    if m in t.frees {
      var r := SomeGave(t.nodes, m);
    }
  }

  // ---- when memory gets a second giver, a foreign one is given back, or one is given back again ----

  /** The step splits a node that does not give its memory back, while another one does. */
  ghost predicate SecondGiver(t: Table, step: Step)
  {
    Enabled(t, step) && step.Split? && !t.nodes[step.k].reusable && exists r :: Giver(t, r, t.nodes[step.k].mem)
  }

  /** The step splits a node over memory of the caller. */
  ghost predicate SplitsForeign(t: Table, step: Step)
  {
    Enabled(t, step) && step.Split? && !t.nodes[step.k].ours
  }

  /** The step releases the last reference to a giver of memory that another giver has given back. */
  ghost predicate GivesAgain(t: Table, step: Step)
  {
    && Enabled(t, step) && step.Release?
    && t.nodes[Root(t, step.k)].refer == 1 && t.nodes[Root(t, step.k)].reusable
    && exists j :: j != Root(t, step.k) && Giver(t, j, t.nodes[step.k].mem) && AllReleased(t, j)
  }

  /** Some step of the run is taken in a state in which it is bad. */
  ghost predicate Happens(steps: seq<Step>, bad: (Table, Step) -> bool)
  {
    exists n :: 0 <= n < |steps| && bad(Run(steps[..n]), steps[n])
  }

  lemma HappensLast(steps: seq<Step>, bad: (Table, Step) -> bool)
    requires steps != []
    ensures var front, last := steps[..|steps| - 1], steps[|steps| - 1];
            Happens(steps, bad) <==> Happens(front, bad) || bad(Run(front), last)
  {
    hide Run;
    var front := steps[..|steps| - 1];
    assert forall n :: 0 <= n < |front| ==> front[..n] == steps[..n] && front[n] == steps[n];
    if Happens(front, bad) {
      var n :| 0 <= n < |front| && bad(Run(front[..n]), front[n]);
      assert bad(Run(steps[..n]), steps[n]);
    }
    if Happens(steps, bad) {
      var n :| 0 <= n < |steps| && bad(Run(steps[..n]), steps[n]);
      assert n < |front| ==> bad(Run(front[..n]), front[n]);
    }
  }

  /** The only step that gives some memory a second giver is such a split, and it always does. */
  lemma OneGiverExactly(t: Table, step: Step)
    requires Counted(t) && Enabled(t, step) && OneGiver(t)
    ensures OneGiver(After(t, step)) <==> !SecondGiver(t, step)
  {
    hide Count;
    var t' := After(t, step);
    GiversAfter(t, step);
    if step.Split? {
      var m := t.nodes[step.k].mem;
      assert Giver(t', |t.nodes|, m);
      if SecondGiver(t, step) {
        var r :| Giver(t, r, m);
        assert Giver(t', r, m);
      }
    }
    if !SecondGiver(t, step) {
      forall i: nat, j: nat, m: nat | Giver(t', i, m) && Giver(t', j, m)
        ensures i == j
      {
        assert i < |t.nodes| ==> Giver(t, i, m);
        assert j < |t.nodes| ==> Giver(t, j, m);
        if step.Split? && t.nodes[step.k].reusable {
          assert Giver(t, step.k, t.nodes[step.k].mem);
        }
      }
    }
  }

  /** Which nodes are givers after a step. */
  lemma GiversAfter(t: Table, step: Step)
    requires Counted(t) && Enabled(t, step)
    ensures var t' := After(t, step);
            && |t.nodes| <= |t'.nodes| <= |t.nodes| + 1
            && (forall i: nat, m: nat :: i < |t.nodes| ==>
                  (Giver(t', i, m) <==> Giver(t, i, m) && !(step.Split? && step.k == i)))
            && (forall m: nat :: Giver(t', |t.nodes|, m) <==>
                  (step.Split? && m == t.nodes[step.k].mem) || (step == Create(true) && m == |t.nodes|))
            && (forall i: nat, m: nat :: Giver(t, i, m) ==> m < |t.nodes|)
  {
    hide Count;
    forall i: nat, m: nat | Giver(t, i, m)
      ensures m < |t.nodes|
    {
      assert NodeOk(t.nodes, i);
    }
  }

  /** Memory with two givers keeps two: a split only hands the duty on. */
  lemma TwoGiversStay(t: Table, step: Step)
    requires Counted(t) && Enabled(t, step) && !OneGiver(t)
    ensures !OneGiver(After(t, step))
  {
    hide Counted, After;
    GiversAfter(t, step);
    var t' := After(t, step);
    var i: nat, j: nat, m: nat :| Giver(t, i, m) && Giver(t, j, m) && i != j;
    var i' := if step.Split? && step.k == i then |t.nodes| else i;
    var j' := if step.Split? && step.k == j then |t.nodes| else j;
    assert Giver(t', i', m) && Giver(t', j', m) && i' != j';
  }

  /** In a whole run no memory has two givers if and only if no step gives one a second giver. */
  lemma {:induction false} OneGiverRuns(steps: seq<Step>)
    ensures OneGiver(Run(steps)) <==> !Happens(steps, SecondGiver)
  {
    hide Counted, OneGiver, SecondGiver, After, Enabled, Happens;
    if steps == [] {
      NothingHappens(SecondGiver);
      NoGivers();
    } else {
      var front, step := steps[..|steps| - 1], steps[|steps| - 1];
      OneGiverRuns(front);
      EveryRun(front);
      HappensLast(steps, SecondGiver);
      if !Enabled(Run(front), step) {
        NotEnabled(Run(front), step);
      } else if OneGiver(Run(front)) {
        OneGiverExactly(Run(front), step);
      } else {
        TwoGiversStay(Run(front), step);
      }
    }
  }

  lemma NothingHappens(bad: (Table, Step) -> bool)
    ensures !Happens([], bad)
  {
  }

  lemma NoGivers()
    ensures OneGiver(Table([], [])) && GivesOurs(Table([], [])) && GivenOnce(Table([], []))
  {
  }

  lemma NotEnabled(t: Table, step: Step)
    requires !Enabled(t, step)
    ensures !SecondGiver(t, step) && !SplitsForeign(t, step) && !GivesAgain(t, step)
  {
  }

  /** The only step that makes a giver of foreign memory is such a split, and it always does. */
  lemma OursExactly(t: Table, step: Step)
    requires Counted(t) && Enabled(t, step) && GivesOurs(t)
    ensures GivesOurs(After(t, step)) <==> !SplitsForeign(t, step)
  {
    hide Count, Counted;
    if step.Split? {
      assert After(t, step).nodes[|t.nodes|].reusable;
    }
  }

  lemma ForeignStays(t: Table, step: Step)
    requires Enabled(t, step) && !GivesOurs(t)
    ensures !GivesOurs(After(t, step))
  {
    var i :| 0 <= i < |t.nodes| && t.nodes[i].reusable && !t.nodes[i].ours;
    var t', i' := After(t, step), if step.Split? && step.k == i then |t.nodes| else i;
    assert t'.nodes[i'].reusable && !t'.nodes[i'].ours;
  }

  /** In a whole run only memory from the pool has a giver if and only if no step splits a node over foreign memory. */
  lemma {:induction false} OursRuns(steps: seq<Step>)
    ensures GivesOurs(Run(steps)) <==> !Happens(steps, SplitsForeign)
  {
    hide Counted, GivesOurs, SplitsForeign, After, Enabled, Happens;
    if steps == [] {
      NothingHappens(SplitsForeign);
      NoGivers();
    } else {
      var front, step := steps[..|steps| - 1], steps[|steps| - 1];
      OursRuns(front);
      EveryRun(front);
      HappensLast(steps, SplitsForeign);
      if !Enabled(Run(front), step) {
        NotEnabled(Run(front), step);
      } else if GivesOurs(Run(front)) {
        OursExactly(Run(front), step);
      } else {
        ForeignStays(Run(front), step);
      }
    }
  }

  /** No memory has been given back twice. */
  ghost predicate GivenOnce(t: Table)
  {
    forall m: nat :: Count(t.frees, Same(m)) <= 1
  }

  /** Release of node k gives back memory that was given back before exactly if its root is a giver with no other holder
      and another giver of that memory has been released with all that was referred from it. */
  lemma AgainExactly(t: Table, k: nat)
    requires Counted(t) && k < |t.nodes| && t.nodes[k].held
    ensures Root(t, k) < |t.nodes|
    ensures Released(t, k).frees == t.frees + [t.nodes[k].mem] && t.nodes[k].mem in t.frees
            <==> GivesAgain(t, Step.Release(k))
  {
    hide Counted, Count, AllReleased, Giver;
    ReleaseGives(t, k);
    HeldExactly(t, k);
    assert t.frees + [] == t.frees;
  }

  /** The only step that gives memory back twice is such a release, and it always does. */
  lemma OnceExactly(t: Table, step: Step)
    requires Counted(t) && Enabled(t, step) && GivenOnce(t)
    ensures GivenOnce(After(t, step)) <==> !GivesAgain(t, step)
  {
    hide Counted, Count, GivesAgain;
    var t' := After(t, step);
    if step.Release? {
      var m := t.nodes[step.k].mem;
      ReleaseGives(t, step.k);
      AgainExactly(t, step.k);
      if t'.frees != t.frees {
        assert t'.frees == t.frees + [m];
        CountsOneMore(t.frees, m);
      }
    } else {
      assert t'.frees == t.frees;
      OnlyRelease(t, step);
    }
  }

  lemma OnlyRelease(t: Table, step: Step)
    ensures GivesAgain(t, step) ==> step.Release?
  {
  }

  lemma CountsOneMore(s: seq<nat>, m: nat)
    ensures forall x: nat :: Count(s + [m], Same(x)) == Count(s, Same(x)) + if x == m then 1 else 0
    ensures m in s <==> Count(s, Same(m)) > 0
  {
    hide Count;
    forall x: nat
      ensures Count(s + [m], Same(x)) == Count(s, Same(x)) + if x == m then 1 else 0
    {
      CountPush(s, m, Same(x));
    }
    InList(s, m);
  }

  lemma TwiceStays(t: Table, step: Step)
    requires Counted(t) && Enabled(t, step) && !GivenOnce(t)
    ensures !GivenOnce(After(t, step))
  {
    hide Counted, Count;
    var x: nat :| Count(t.frees, Same(x)) > 1;
    var t' := After(t, step);
    if step.Release? {
      ReleaseGives(t, step.k);
      CountsOneMore(t.frees, t.nodes[step.k].mem);
      assert t'.frees == t.frees || t'.frees == t.frees + [t.nodes[step.k].mem];
    } else {
      assert t'.frees == t.frees;
    }
    assert Count(t'.frees, Same(x)) > 1;
  }

  /** In a whole run no memory is given back twice if and only if no step gives memory back again. */
  lemma {:induction false} OnceRuns(steps: seq<Step>)
    ensures GivenOnce(Run(steps)) <==> !Happens(steps, GivesAgain)
  {
    hide Counted, GivenOnce, GivesAgain, After, Enabled, Happens;
    if steps == [] {
      NothingHappens(GivesAgain);
      NoGivers();
    } else {
      var front, step := steps[..|steps| - 1], steps[|steps| - 1];
      OnceRuns(front);
      EveryRun(front);
      HappensLast(steps, GivesAgain);
      if !Enabled(Run(front), step) {
        NotEnabled(Run(front), step);
      } else if GivenOnce(Run(front)) {
        OnceExactly(Run(front), step);
      } else {
        TwiceStays(Run(front), step);
      }
    }
  }

  /** Without a split every root gives back its own memory or none. */
  lemma {:induction false} WithoutSplit(steps: seq<Step>)
    requires forall i :: 0 <= i < |steps| ==> !steps[i].Split?
    ensures OwnMemory(Run(steps))
  {
    hide After, Enabled;
    if steps != [] {
      var t, step := Run(steps[..|steps| - 1]), steps[|steps| - 1];
      WithoutSplit(steps[..|steps| - 1]);
      if Enabled(t, step) {
        OwnAfter(t, step);
      }
    }
  }

  /** Every root gives back its own memory, if that is ours. */
  ghost predicate OwnMemory(t: Table)
  {
    forall r :: 0 <= r < |t.nodes| && t.nodes[r].origin.None? ==> t.nodes[r].mem == r && t.nodes[r].reusable == t.nodes[r].ours
  }

  lemma OwnAfter(t: Table, step: Step)
    requires Enabled(t, step) && !step.Split? && OwnMemory(t)
    ensures OwnMemory(After(t, step))
  {
  }

  /** So in every run without a split memory has one giver, is given back at most once, and only if it is ours. */
  lemma WithoutSplitOnce(steps: seq<Step>)
    requires forall i :: 0 <= i < |steps| ==> !steps[i].Split?
    ensures OneGiver(Run(steps)) && GivesOurs(Run(steps)) && GivenOnce(Run(steps))
  {
    hide Run, Counted, Count, AllReleased;
    EveryRun(steps);
    WithoutSplit(steps);
    var t := Run(steps);
    forall r: nat, m: nat | Giver(t, r, m)
      ensures r == m && t.nodes[r].ours
    {
      GiverIsRoot(t, r, m);
    }
    forall r | 0 <= r < |t.nodes| && t.nodes[r].reusable
      ensures t.nodes[r].ours
    {
      assert Giver(t, r, t.nodes[r].mem);
    }
    forall m: nat
      ensures Count(t.frees, Same(m)) <= 1
    {
      TwiceExactly(t, m);
    }
  }

  /** So memory that is held is not given back, in every run without a split. */
  lemma HeldIsAlive(steps: seq<Step>, k: nat)
    requires forall i :: 0 <= i < |steps| ==> !steps[i].Split?
    requires k < |Run(steps).nodes| && Run(steps).nodes[k].held
    ensures Run(steps).nodes[k].mem !in Run(steps).frees
  {
    hide Run, Counted;
    EveryRun(steps);
    WithoutSplit(steps);
    var t := Run(steps);
    HeldCounts(t, k);
    forall r | Giver(t, r, t.nodes[k].mem)
      ensures r == Root(t, k)
    {
      GiverIsRoot(t, r, t.nodes[k].mem);
    }
    HeldExactly(t, k);
  }

  // ---- runs that go wrong ----

  /** A buffer allocates a node and splits it with WriteDirect; its first half is sliced; the buffer releases both
      halves. The memory is given back while the slice still holds it. */
  lemma SplitFreesEarly()
    ensures var t := Run([Create(true), Split(0), Refer(0), Release(0), Release(1)]);
            |t.nodes| == 3 && t.nodes[2].held && t.nodes[2].mem == 0 && t.frees == [0]
  {
    var steps := [Create(true), Split(0), Refer(0), Release(0), Release(1)];
    assert steps[..4] == [Create(true), Split(0), Refer(0), Release(0)];
    assert steps[..4][..3] == [Create(true), Split(0), Refer(0)];
    assert steps[..4][..3][..2] == [Create(true), Split(0)];
    assert steps[..4][..3][..2][..1] == [Create(true)];
    assert steps[..4][..3][..2][..1][..0] == [];
    assert Run([Create(true)]).nodes == [RefNode(1, None, 0, true, true, true, false)];
    var a := Run([Create(true), Split(0)]);
    assert a.nodes == [RefNode(1, None, 0, false, true, true, false), RefNode(1, None, 0, true, true, true, false)];
    var b := Run([Create(true), Split(0), Refer(0)]);
    assert b.nodes == [RefNode(2, None, 0, false, true, true, false), RefNode(1, None, 0, true, true, true, false),
                       RefNode(1, Some(0), 0, false, true, true, false)];
    var c := Run([Create(true), Split(0), Refer(0), Release(0)]);
    assert c.nodes[0] == RefNode(1, None, 0, false, true, false, false) && c.frees == [];
  }

  /** A node that was split is split again: its memory is given back twice. */
  lemma SecondSplitFreesTwice()
    ensures Run([Create(true), Split(0), Split(0), Release(1), Release(2)]).frees == [0, 0]
  {
    var steps := [Create(true), Split(0), Split(0), Release(1), Release(2)];
    assert steps[..4] == [Create(true), Split(0), Split(0), Release(1)];
    assert steps[..4][..3] == [Create(true), Split(0), Split(0)];
    assert steps[..4][..3][..2] == [Create(true), Split(0)];
    assert steps[..4][..3][..2][..1] == [Create(true)];
    assert steps[..4][..3][..2][..1][..0] == [];
    assert Run([Create(true)]).nodes == [RefNode(1, None, 0, true, true, true, false)];
    var a := Run([Create(true), Split(0)]);
    assert a.nodes == [RefNode(1, None, 0, false, true, true, false), RefNode(1, None, 0, true, true, true, false)];
    var b := Run([Create(true), Split(0), Split(0)]);
    assert b.nodes == [RefNode(1, None, 0, false, true, true, false), RefNode(1, None, 0, true, true, true, false),
                       RefNode(1, None, 0, true, true, true, false)];
  }

  /** A node over the caller's memory is split: the caller's memory is given to the pool. */
  lemma ForeignIsFreed()
    ensures var t := Run([Create(false), Split(0), Release(0), Release(1)]); |t.nodes| == 2 && !t.nodes[1].ours && t.frees == [0]
  {
    var steps := [Create(false), Split(0), Release(0), Release(1)];
    assert steps[..3] == [Create(false), Split(0), Release(0)];
    assert steps[..3][..2] == [Create(false), Split(0)];
    assert steps[..3][..2][..1] == [Create(false)];
    assert steps[..3][..2][..1][..0] == [];
    assert Run([Create(false)]).nodes == [RefNode(1, None, 0, false, false, true, false)];
    var a := Run([Create(false), Split(0)]);
    assert a.nodes == [RefNode(1, None, 0, false, false, true, false), RefNode(1, None, 0, true, false, true, false)];
    var b := Run([Create(false), Split(0), Release(0)]);
    assert b.nodes[1] == a.nodes[1] && b.frees == [];
  }
}
