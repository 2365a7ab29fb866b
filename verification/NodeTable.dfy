/** The nodes that buffers share, and which of them a buffer holds. */
module NodeTable {
  import opened Ledger
  import opened NodeRefs

  class RefTable {
    var t: Table
    /** The steps taken so far. */
    ghost var steps: seq<Step>

    ghost predicate Valid()
      reads this
    {
      t == Run(steps) && Counted(t)
    }

    constructor ()
      ensures Valid() && t == Table([], []) && steps == []
    {
      t, steps := Table([], []), [];
      EmptyCounted();
    }

    /** newLinkBufferNode, as far as counts and modes go. */
    method New(ours: bool) returns (k: nat)
      requires Valid()
      modifies this
      ensures Valid() && steps == old(steps) + [Create(ours)] && t == Created(old(t), ours) && k == old(|t.nodes|)
    {
      hide Run, Counted;
      RunStep(steps, Create(ours));
      KeepAfter(t, Create(ours));
      k := |t.nodes|;
      t := t.(nodes := t.nodes + [RefNode(1, None, k, ours, ours, true, false)]);
      steps := steps + [Create(ours)];
    }

    method Refer(k: nat) returns (p: nat)
      requires Valid() && k < |t.nodes| && t.nodes[k].held
      modifies this
      ensures Valid() && steps == old(steps) + [Step.Refer(k)] && p == old(|t.nodes|)
      ensures Root(old(t), k) < old(|t.nodes|) && t == Referred(old(t), k)
    {
      hide Run, Counted;
      HeldCounts(t, k);
      RunStep(steps, Step.Refer(k));
      KeepAfter(t, Step.Refer(k));
      var origin := if t.nodes[k].origin.Some? then t.nodes[k].origin.value else k;
      p := |t.nodes|;
      var root := t.nodes[origin];
      var nodes := t.nodes[origin := root.(refer := root.refer + 1)];
      t := t.(nodes := nodes + [RefNode(1, Some(origin), root.mem, false, root.ours, true, false)]);
      steps := steps + [Step.Refer(k)];
    }

    /** The new node of WriteDirect, and the mode of the node it is split from. */
    method Split(k: nat) returns (p: nat)
      requires Valid() && k < |t.nodes| && t.nodes[k].held && t.nodes[k].origin.None?
      modifies this
      ensures Valid() && steps == old(steps) + [Step.Split(k)] && p == old(|t.nodes|) && t == SplitOff(old(t), k)
    {
      hide Run, Counted;
      RunStep(steps, Step.Split(k));
      KeepAfter(t, Step.Split(k));
      p := |t.nodes|;
      var nd := t.nodes[k];
      t := t.(nodes := t.nodes[k := nd.(reusable := false)] + [RefNode(1, None, nd.mem, true, nd.ours, true, false)]);
      steps := steps + [Step.Split(k)];
    }

    /** The end of Release: one reference less, and at zero the memory of a reusable node is given back. */
    method Drop(k: nat)
      requires k < |t.nodes|
      modifies `t
      ensures t == Dropped(old(t), k)
    {
      var nd := t.nodes[k];
      t := t.(nodes := t.nodes[k := nd.(refer := nd.refer - 1, freed := nd.refer == 1)]);
      if nd.refer == 1 && nd.reusable {
        t := t.(frees := t.frees + [nd.mem]);
      }
    }

    method Release(k: nat)
      requires Valid() && k < |t.nodes| && t.nodes[k].held
      modifies this
      ensures Valid() && steps == old(steps) + [Step.Release(k)]
      ensures Root(old(t), k) < old(|t.nodes|) && t == Released(old(t), k)
    {
      hide Run, Counted;
      HeldCounts(t, k);
      RunStep(steps, Step.Release(k));
      KeepAfter(t, Step.Release(k));
      if t.nodes[k].origin.Some? {
        Drop(t.nodes[k].origin.value);
      }
      Drop(k);
      t := t.(nodes := t.nodes[k := t.nodes[k].(held := false)]);
      steps := steps + [Step.Release(k)];
    }
  }

  lemma RunStep(steps: seq<Step>, step: Step)
    requires Enabled(Run(steps), step)
    ensures Run(steps + [step]) == After(Run(steps), step)
  {
    assert (steps + [step])[..|steps|] == steps;
  }

  // ---- what a buffer holds ----

  ghost predicate Distinct(ids: seq<nat>)
  {
    forall i, j :: 0 <= i < j < |ids| ==> ids[i] != ids[j]
  }

  /** A buffer of n nodes holds the nodes ids, one by one; a buffer that can be written to holds roots. */
  ghost predicate Holding(ids: seq<nat>, n: nat, t: Table, writable: bool)
  {
    && |ids| == n && Distinct(ids)
    && (forall i :: 0 <= i < |ids| ==> ids[i] < |t.nodes| && t.nodes[ids[i]].held)
    && (writable ==> forall i :: 0 <= i < |ids| ==> t.nodes[ids[i]].origin.None?)
  }

  /** Nodes that are not among ids are held as they were. */
  ghost predicate Untouched(t: Table, t': Table, ids: seq<nat>)
  {
    && |t.nodes| <= |t'.nodes|
    && forall j :: 0 <= j < |t.nodes| && j !in ids ==>
         t'.nodes[j].held == t.nodes[j].held && t'.nodes[j].origin == t.nodes[j].origin
  }

  /** A buffer that shares no node with the one that took a step holds what it held. */
  lemma OthersKeep(t: Table, t': Table, ids: seq<nat>, others: seq<nat>, n: nat, writable: bool)
    requires Untouched(t, t', ids) && Holding(others, n, t, writable) && forall i :: 0 <= i < |others| ==> others[i] !in ids
    ensures Holding(others, n, t', writable)
  {
  }

  lemma UntouchedOn(t: Table, t': Table, t'': Table, ids: seq<nat>)
    requires Untouched(t, t', ids) && Untouched(t', t'', ids)
    ensures Untouched(t, t'', ids)
  {
  }

  lemma CreatedHolding(t: Table, ours: bool, ids: seq<nat>, n: nat, writable: bool, m: nat)
    requires Holding(ids, n, t, writable) && m <= n
    ensures var t' := Created(t, ours);
            && Untouched(t, t', ids) && Holding(ids, n, t', writable) && Holding(ids[..m] + [|t.nodes|], m + 1, t', writable)
  {
  }

  lemma ReferredHolding(t: Table, k: nat, ids: seq<nat>, n: nat, writable: bool)
    requires k < |t.nodes| && Root(t, k) < |t.nodes| && Holding(ids, n, t, writable)
    ensures Untouched(t, Referred(t, k), []) && Holding(ids, n, Referred(t, k), writable)
    ensures Holding(ids + [|t.nodes|], n + 1, Referred(t, k), false)
  {
  }

  lemma SplitHolding(t: Table, ids: seq<nat>, n: nat, o: nat)
    requires Holding(ids, n, t, true) && o < n
    ensures var t' := SplitOff(t, ids[o]);
            && Untouched(t, t', ids) && Holding(ids, n, t', true)
            && Holding(ids[..o + 1] + [|t.nodes|] + ids[o + 1..], n + 1, t', true)
  {
    Inserted(ids, o, |t.nodes|, SplitOff(t, ids[o]));
  }

  /** A new root can stand anywhere in the chain. */
  lemma Inserted(ids: seq<nat>, o: nat, k: nat, t: Table)
    requires o < |ids| && Holding(ids, |ids|, t, true) && k !in ids && k < |t.nodes| && t.nodes[k].held && t.nodes[k].origin.None?
    ensures Holding(ids[..o + 1] + [k] + ids[o + 1..], |ids| + 1, t, true)
  {
    var ids' := ids[..o + 1] + [k] + ids[o + 1..];
    assert forall i :: 0 <= i < |ids'| ==> ids'[i] == if i <= o then ids[i] else if i == o + 1 then k else ids[i - 1];
  }

  lemma ReleasedHolding(t: Table, ids: seq<nat>, n: nat, writable: bool)
    requires Holding(ids, n, t, writable) && n > 0 && Root(t, ids[0]) < |t.nodes|
    ensures var t' := Released(t, ids[0]); Untouched(t, t', ids) && Holding(ids[1..], n - 1, t', writable)
  {
  }

  function Releases(ids: seq<nat>): (steps: seq<Step>)
    ensures |steps| == |ids| && forall i :: 0 <= i < |ids| ==> steps[i] == Step.Release(ids[i])
  {
    seq(|ids|, i requires 0 <= i < |ids| => Step.Release(ids[i]))
  }

  function Refers(ids: seq<nat>): (steps: seq<Step>)
    ensures |steps| == |ids| && forall i :: 0 <= i < |ids| ==> steps[i] == Step.Refer(ids[i])
  {
    seq(|ids|, i requires 0 <= i < |ids| => Step.Refer(ids[i]))
  }

  lemma StepsPush(ids: seq<nat>, k: nat, steps: seq<Step>)
    requires k < |ids|
    ensures steps + Releases(ids[..k]) + [Step.Release(ids[k])] == steps + Releases(ids[..k + 1])
  {
    assert Releases(ids[..k]) + [Step.Release(ids[k])] == Releases(ids[..k + 1]);
  }

  lemma RefersPush(ids: seq<nat>, k: nat, steps: seq<Step>)
    ensures steps + Refers(ids) + [Step.Refer(k)] == steps + Refers(ids + [k])
  {
    assert Refers(ids) + [Step.Refer(k)] == Refers(ids + [k]);
  }

  /** What a buffer holds after a step: what it held, and new nodes. */
  ghost predicate NewOnly(ids: seq<nat>, ids': seq<nat>, count: nat)
  {
    forall i :: 0 <= i < |ids'| ==> ids'[i] in ids || ids'[i] >= count
  }

  /** The numbers of the nodes made by n steps from a table of k nodes. */
  function Upward(k: nat, n: nat): (ids: seq<nat>)
    ensures |ids| == n && forall i :: 0 <= i < n ==> ids[i] == k + i
  {
    seq(n, i requires 0 <= i < n => k + i)
  }

  // ---- small facts ----

  lemma HoldingLength(ids: seq<nat>, n: nat, t: Table, writable: bool)
    requires Holding(ids, n, t, writable)
    ensures |ids| == n
  {
  }

  lemma HoldingAt(ids: seq<nat>, n: nat, t: Table, writable: bool, i: nat)
    requires Holding(ids, n, t, writable) && i < n
    ensures |ids| == n && ids[i] in ids && ids[i] < |t.nodes| && t.nodes[ids[i]].held
    ensures writable ==> t.nodes[ids[i]].origin.None?
  {
  }

  lemma HoldingAll(ids: seq<nat>, n: nat, t: Table, writable: bool)
    requires Holding(ids, n, t, writable)
    ensures |ids| == n && forall i :: 0 <= i < n ==> ids[i] < |t.nodes|
  {
  }

  lemma HoldingWeaker(ids: seq<nat>, n: nat, t: Table, writable: bool)
    requires Holding(ids, n, t, writable)
    ensures Holding(ids, |ids|, t, false)
  {
  }

  lemma NotIn(ids: seq<nat>, n: nat, t: Table)
    requires Holding(ids, n, t, true)
    ensures |t.nodes| !in ids
  {
  }

  lemma UntouchedSelf(t: Table, ids: seq<nat>)
    ensures Untouched(t, t, ids) && NewOnly(ids, ids, |t.nodes|)
  {
  }

  lemma UntouchedNarrow(t: Table, t': Table, t'': Table, ids: seq<nat>, ids': seq<nat>)
    requires Untouched(t, t', ids) && Untouched(t', t'', ids') && NewOnly(ids, ids', |t.nodes|)
    ensures Untouched(t, t'', ids)
  {
    forall j | 0 <= j < |t.nodes| && j !in ids
      ensures j !in ids'
    {
    }
  }

  lemma CreatedCount(t: Table, ours: bool)
    ensures |Created(t, ours).nodes| == |t.nodes| + 1 && Created(t, ours).nodes[|t.nodes|].reusable == ours
  {
  }

  lemma SplitLast(t: Table, k: nat)
    requires k < |t.nodes|
    ensures |SplitOff(t, k).nodes| == |t.nodes| + 1
    ensures SplitOff(t, k).nodes[|t.nodes|].held && SplitOff(t, k).nodes[|t.nodes|].origin.None?
  {
  }

  lemma SplitIds(ids: seq<nat>, o: nat, k: nat)
    requires o < |ids|
    ensures var mid := ids[..o + 1] + [k] + ids[o + 1..];
            && mid[..o + 2] + [k + 1] + mid[o + 2..] == ids[..o + 1] + [k, k + 1] + ids[o + 1..]
            && NewOnly(ids, ids[..o + 1] + [k, k + 1] + ids[o + 1..], k)
  {
    var ids' := ids[..o + 1] + [k, k + 1] + ids[o + 1..];
    forall i | 0 <= i < |ids'|
      ensures ids'[i] in ids || ids'[i] >= k
    {
      if i <= o {
        assert ids'[i] == ids[i];
      } else if i > o + 2 {
        assert ids'[i] == ids[i - 2];
      }
    }
  }

  lemma ReleaseStarts(t: Table, all: seq<nat>, steps: seq<Step>)
    ensures Untouched(t, t, all) && all[0..] == all && steps + Releases(all[..0]) == steps
  {
  }

  lemma ReleaseOne(t: Table, t': Table, t'': Table, all: seq<nat>, k: nat, steps: seq<Step>)
    requires k < |all| && Untouched(t, t', all) && Untouched(t', t'', all[k..])
    ensures all[k..][0] == all[k] && all[k..][1..] == all[k + 1..] && Untouched(t, t'', all)
    ensures steps + Releases(all[..k]) + [Step.Release(all[k])] == steps + Releases(all[..k + 1])
  {
    StepsPush(all, k, steps);
    forall j | 0 <= j < |t.nodes| && j !in all
      ensures j !in all[k..]
    {
    }
  }

  lemma NoReleases(ids: seq<nat>, steps: seq<Step>)
    ensures ids[0..] == ids && steps + Releases(ids[..0]) == steps
  {
  }

  // ---- growing a buffer ----

  /** At most one new node was made, and it stands at the end of what the buffer holds. */
  ghost predicate Grown(t: Table, steps: seq<Step>, t': Table, steps': seq<Step>, ids: seq<nat>, ids': seq<nat>, ours: bool)
  {
    && Untouched(t, t', ids) && NewOnly(ids, ids', |t.nodes|)
    && ((t' == t && steps' == steps && ids' == ids)
        || (t' == Created(t, ours) && steps' == steps + [Create(ours)]
            && ids' != [] && |ids'| <= |ids| + 1 && ids' == ids[..|ids'| - 1] + [|t.nodes|]))
  }

  lemma GrownNot(t: Table, steps: seq<Step>, ids: seq<nat>, ours: bool)
    ensures Grown(t, steps, t, steps, ids, ids, ours)
  {
    UntouchedSelf(t, ids);
  }

  lemma GrownBy(t: Table, steps: seq<Step>, ours: bool, ids: seq<nat>, m: nat)
    requires m <= |ids|
    ensures Grown(t, steps, Created(t, ours), steps + [Create(ours)], ids, ids[..m] + [|t.nodes|], ours)
  {
    var ids' := ids[..m] + [|t.nodes|];
    assert forall i :: 0 <= i < m ==> ids'[i] == ids[i];
  }

  // ---- sharing nodes ----

  /** From table t and steps on, the nodes `from` of a buffer that holds ids were referred to, one by one; the new nodes
      are newIds. */
  ghost predicate Sharing(t: Table, steps: seq<Step>, t': Table, steps': seq<Step>, ids: seq<nat>, newIds: seq<nat>, from: seq<nat>)
  {
    && newIds == Upward(|t.nodes|, |from|) && |t'.nodes| == |t.nodes| + |from|
    && steps' == steps + Refers(from) && (forall i :: 0 <= i < |from| ==> from[i] in ids)
    && Untouched(t, t', []) && Holding(newIds, |newIds|, t', false)
  }

  lemma SharingStarts(t: Table, steps: seq<Step>, ids: seq<nat>)
    ensures Sharing(t, steps, t, steps, ids, [], [])
  {
    assert steps + Refers([]) == steps && Upward(|t.nodes|, 0) == [];
  }

  lemma SharingOne(t: Table, steps: seq<Step>, t': Table, steps': seq<Step>, t'': Table, ids: seq<nat>, newIds: seq<nat>, from: seq<nat>, k: nat)
    requires Sharing(t, steps, t', steps', ids, newIds, from) && k in ids
    requires k < |t'.nodes| && Root(t', k) < |t'.nodes| && t'' == Referred(t', k)
    ensures Sharing(t, steps, t'', steps' + [Step.Refer(k)], ids, newIds + [|t'.nodes|], from + [k])
  {
    hide Upward, Refers;
    RefersPush(from, k, steps);
    ReferredHolding(t', k, newIds, |newIds|, false);
    UntouchedOn(t, t', t'', []);
    assert newIds + [|t'.nodes|] == Upward(|t.nodes|, |from| + 1);
  }

  lemma SharingHolds(t: Table, steps: seq<Step>, t': Table, steps': seq<Step>, ids: seq<nat>, newIds: seq<nat>, from: seq<nat>)
    requires Sharing(t, steps, t', steps', ids, newIds, from)
    ensures Holding(newIds, |newIds|, t', false)
  {
  }

  lemma SharingMeans(t: Table, steps: seq<Step>, t': Table, steps': seq<Step>, ids: seq<nat>, newIds: seq<nat>, from: seq<nat>)
    requires Sharing(t, steps, t', steps', ids, newIds, from)
    ensures newIds == Upward(|t.nodes|, |from|) && steps' == steps + Refers(from)
    ensures (forall i :: 0 <= i < |from| ==> from[i] in ids) && Untouched(t, t', ids)
  {
  }

  /** The new nodes are none of those that the buffer goes on to release. */
  lemma SharingKept(t: Table, t': Table, t'': Table, ids: seq<nat>, newIds: seq<nat>, n: nat)
    requires Untouched(t, t', ids) && Untouched(t', t'', ids) && Holding(newIds, n, t', false)
    requires (forall i :: 0 <= i < |ids| ==> ids[i] < |t.nodes|) && newIds == Upward(|t.nodes|, |newIds|)
    ensures Untouched(t, t'', ids) && Holding(newIds, n, t'', false)
  {
    UntouchedOn(t, t', t'', ids);
    OthersKeep(t', t'', ids, newIds, n, false);
  }
}
