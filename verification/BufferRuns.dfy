/** Runs of a buffer that end as its callers would not expect. */
module BufferRuns {
  import opened Bytes
  import opened Ledger
  import opened NodeChain
  import opened NodeRefs
  import opened NodeTable
  import opened LinkBuffer

  /** Node 0 is split, and 2 is its other half; node 1 holds what was written in between; 0 has been sliced. */
  ghost predicate SplitAndSliced(t: Table)
  {
    && |t.nodes| > 3 && t.frees == []
    && t.nodes[0] == RefNode(2, None, 0, false, true, true, false)
    && t.nodes[1] == RefNode(1, None, 1, false, false, true, false)
    && t.nodes[2] == RefNode(1, None, 0, true, true, true, false)
  }

  /** What has happened before the buffer is closed; `tail` says that Flush found the last node too large. */
  ghost function Prepare(tail: bool): seq<Step>
  {
    [Create(true)] + [Create(false), Split(0)] + (if tail then [Create(false)] else []) + [Refer(0)]
  }

  /** What the buffer then holds. */
  ghost function Chain(tail: bool): seq<nat> { if tail then [0, 1, 2, 3] else [0, 1, 2] }

  lemma AfterDirect()
    ensures Run([Create(true)] + [Create(false), Split(0)])
            == Table([RefNode(1, None, 0, false, true, true, false), RefNode(1, None, 1, false, false, true, false),
                      RefNode(1, None, 0, true, true, true, false)], [])
  {
    hide Run;
    RunNothing();
    RunStep([], Create(true));
    assert [] + [Create(true)] == [Create(true)];
    RunStep([Create(true)], Create(false));
    assert [Create(true)] + [Create(false)] == [Create(true), Create(false)];
    RunStep([Create(true), Create(false)], Split(0));
    assert [Create(true), Create(false)] + [Split(0)] == [Create(true)] + [Create(false), Split(0)];
  }

  lemma Prepared(tail: bool)
    ensures var t := Run(Prepare(tail));
            && SplitAndSliced(t) && |t.nodes| == (if tail then 5 else 4)
            && t.nodes[|t.nodes| - 1] == RefNode(1, Some(0), 0, false, true, true, false)
            && (tail ==> t.nodes[3] == RefNode(1, None, 3, false, false, true, false))
  {
    hide Run;
    AfterDirect();
    var steps := [Create(true)] + [Create(false), Split(0)];
    if tail {
      RunStep(steps, Create(false));
      RunStep(steps + [Create(false)], Refer(0));
    } else {
      assert steps + [] == steps;
      RunStep(steps, Refer(0));
    }
  }

  lemma RunNothing()
    ensures Run([]) == Table([], [])
  {
  }

  /** The buffer lets go of its first three nodes: the other half gives the memory back. */
  lemma ThreeReleased(steps: seq<Step>)
    requires SplitAndSliced(Run(steps))
    ensures var t, t' := Run(steps), Run(steps + [Release(0)] + [Release(1)] + [Release(2)]);
            t'.frees == [0] && |t'.nodes| == |t.nodes| && forall k :: 3 <= k < |t.nodes| ==> t'.nodes[k] == t.nodes[k]
  {
    hide Run;
    RunStep(steps, Release(0));
    RunStep(steps + [Release(0)], Release(1));
    RunStep(steps + [Release(0)] + [Release(1)], Release(2));
  }

  lemma ClosedEarly(tail: bool)
    ensures var n: nat := if tail then 4 else 3;
            var t := Run(Prepare(tail) + Releases(Chain(tail)));
            && |t.nodes| == n + 1 && t.nodes[n] == RefNode(1, Some(0), 0, false, true, true, false) && 0 in t.frees
  {
    hide Run, SplitAndSliced;
    var steps := Prepare(tail);
    Prepared(tail);
    ThreeReleased(steps);
    if tail {
      var three := steps + [Release(0)] + [Release(1)] + [Release(2)];
      RunStep(three, Release(3));
      assert steps + Releases(Chain(tail)) == three + [Release(3)];
    } else {
      assert steps + Releases(Chain(tail)) == steps + [Release(0)] + [Release(1)] + [Release(2)];
    }
  }

  lemma HeldIsRun(b: LinkBuffer)
    requires b.Held()
    ensures b.refs.t == Run(b.refs.steps)
  {
  }

  lemma FirstUnread(b: LinkBuffer)
    requires b.Queue() && b.nodes != []
    ensures |Unread(b.nodes[0])| == b.nodes[0].len - b.nodes[0].off
  {
    hide Flat, Shape;
    NodeIn(b.nodes, b.read, b.flush, b.write, 0);
  }

  /** What Flush may have added to the chain. */
  lemma FlushedChain(t: Table, steps: seq<Step>, t': Table, steps': seq<Step>, ids: seq<nat>)
    requires Grown(t, steps, t', steps', [0, 1, 2], ids, false) && |t.nodes| == 3 && [0, 1, 2] <= ids
    ensures var tail := steps' != steps;
            ids == Chain(tail) && |t'.nodes| == |ids| && steps' == steps + (if tail then [Create(false)] else [])
  {
    hide Untouched, NewOnly;
    if |steps'| == |steps| {
      assert steps + [] == steps;
    } else {
      assert ids[|ids| - 1] == 3 && ids[2] == 2;
      assert [0, 1, 2][..3] == [0, 1, 2];
    }
  }

  /** A new buffer with all of data pending in its one node. */
  method Fill(refs: RefTable, data: seq<byte>) returns (b: LinkBuffer)
    requires refs.Valid() && refs.t == Table([], []) && refs.steps == [] && 0 < |data| <= 4096
    modifies refs
    ensures fresh(b) && b.Valid() && b.refs == refs && b.ids == [0] && |b.nodes| == 1 && b.read == b.flush == b.write == 0
    ensures b.Readable() == [] && b.Pending() == data && b.mallocSize == |data|
    ensures b.nodes[0].off == b.nodes[0].len == 0 && refs.steps == [Create(true)] && |refs.t.nodes| == 1
  {
    hide Flat, Shape, Run, Counted, Untouched, LinkBuffer.Queue, RefTable.Valid;
    b := new LinkBuffer(refs, 4096);
    assert [] + [Create(true)] == [Create(true)];
    b.Malloc(data);
    b.QueueSizes();
    assert [] + data == data;
  }

  /** Malloc, WriteDirect into what was allocated, and Flush. */
  method SplitNode(refs: RefTable, data: seq<byte>, extra: seq<byte>) returns (b: LinkBuffer, ghost tail: bool)
    requires refs.Valid() && refs.t == Table([], []) && refs.steps == [] && |data| == 100 && extra != []
    modifies refs
    ensures fresh(b) && b.Valid() && b.refs == refs && b.ids == Chain(tail) && |b.nodes| == |b.ids| == |refs.t.nodes| && b.read == 0
    ensures b.Readable() == data[..50] + extra + data[50..] && |Unread(b.nodes[0])| == 50
    ensures refs.steps == [Create(true)] + [Create(false), Split(0)] + (if tail then [Create(false)] else [])
  {
    hide Flat, Shape, Run, Counted, Untouched, NewOnly, LinkBuffer.Queue, LinkBuffer.Held, Created, Grown;
    b := Fill(refs, data);
    ghost var o := b.WriteDirect(extra, 50);
    ghost var steps, ids := refs.steps, b.ids;
    assert ids == [0, 1, 2];
    AfterDirect();
    HeldIsRun(b);
    ghost var t := refs.t;
    b.Flush();
    FlushedChain(t, steps, refs.t, refs.steps, b.ids);
    tail := refs.steps != steps;
    assert data[..50] + extra + data[50..] == [] + (data[..50] + extra + data[50..]);
    FirstUnread(b);
  }

  /** The first 30 bytes lie in the node that was split. */
  method SliceHalf(b: LinkBuffer, data: seq<byte>, ghost tail: bool) returns (slice: LinkBuffer)
    requires b.Valid() && b.ids == Chain(tail) && |b.nodes| == |b.ids| == |b.refs.t.nodes| && b.read == 0
    requires |data| >= 30 && |b.Readable()| >= 30 && b.Readable()[..30] == data[..30] && |Unread(b.nodes[0])| >= 30
    requires b.refs.steps == [Create(true)] + [Create(false), Split(0)] + (if tail then [Create(false)] else [])
    modifies b, b.refs
    ensures b.Valid() && b.ids == Chain(tail) && b.refs.steps == Prepare(tail)
    ensures fresh(slice) && slice.Valid() && slice.refs == b.refs && slice.Readable() == data[..30]
    ensures slice.ids == [|Chain(tail)|] && slice.flush == |slice.nodes|
  {
    hide Flat, Shape, Unread, Untouched, NewOnly, LinkBuffer.Queue, Holding, RefTable.Valid, Upward, Refers, Releases, Prepare;
    HeldHead(b);
    var r, ok, from := b.Slice(30);
    slice := r;
    OneReferred(tail, b.ids);
  }

  lemma HeldHead(b: LinkBuffer)
    requires b.Held() && b.nodes != []
    ensures |b.ids| == |b.nodes|
  {
    hide RefTable.Valid;
  }

  lemma OneReferred(tail: bool, ids: seq<nat>)
    ensures [Create(true)] + [Create(false), Split(0)] + (if tail then [Create(false)] else []) + Refers([0]) + Releases(ids[..0])
            == Prepare(tail)
    ensures Upward(|Chain(tail)|, 1) == [|Chain(tail)|]
  {
    assert Refers([0]) == [Refer(0)] && Releases(ids[..0]) == [];
  }

  /** Malloc, WriteDirect into what was allocated, Flush, a Slice of the first half, Close: the slice still holds its node
      and shows its bytes, and the memory they lie in has been given back. */
  method SliceOutlivesMemory(data: seq<byte>, extra: seq<byte>) returns (slice: LinkBuffer)
    requires |data| == 100 && extra != []
    ensures fresh(slice) && slice.Valid() && slice.Readable() == data[..30]
    ensures |slice.ids| == 1 && slice.ids[0] < |slice.refs.t.nodes|
    ensures var node := slice.refs.t.nodes[slice.ids[0]]; node.held && node.mem in slice.refs.t.frees
  {
    hide Flat, Shape, Unread, Run, Counted, Untouched, NewOnly, LinkBuffer.Queue, Releases, Refers, Holding, Prepare;
    var refs := new RefTable();
    var b, tail := SplitNode(refs, data, extra);
    assert (data[..50] + extra + data[50..])[..30] == data[..30];
    slice := SliceHalf(b, data, tail);
    ghost var t := refs.t;
    b.Close();
    ClosedEarly(tail);
    OthersKeep(t, refs.t, Chain(tail), slice.ids, |slice.nodes|, false);
  }

  /** Malloc, then MallocAck(0), which should discard it all: mallocSize is 0, but the bytes are still allocated. */
  method AckOfNothingKeepsAll(data: seq<byte>) returns (b: LinkBuffer)
    requires 0 < |data| <= 4096
    ensures fresh(b) && !b.Queue() && b.mallocSize == 0
    ensures b.flush <= |b.nodes| && b.Pending() == data
  {
    hide Flat, Shape, Run, Counted, LinkBuffer.Held;
    var refs := new RefTable();
    b := Fill(refs, data);
    PendingHere(b.nodes, b.flush);
    var ok := b.MallocAck(0);
  }

  /** What is pending in a chain of one node. */
  lemma PendingHere(ns: seq<Node>, flush: nat)
    requires |ns| == 1 && flush == 0
    ensures Flat(ns[flush..], Allocated) == Allocated(ns[0])
  {
    hide Flat;
    FlatEmpty();
    FlatAt(ns, 0, Allocated);
    assert ns[0..] == ns && ns[1..] == [];
    assert Allocated(ns[0]) + [] == Allocated(ns[0]);
  }
}
