/** The chain of nodes behind a LinkBuffer, as a list with three cursors, and what it holds. */
module NodeChain {
  import opened Bytes

  /** linkBufferNode: mem is the memory up to its capacity, len the length of buf, off and malloc the offsets of
      reading and writing. */
  datatype Node = Node(mem: seq<byte>, off: nat, len: nat, malloc: nat)

  /** The bytes of a node that can still be read. */
  function Unread(nd: Node): (s: seq<byte>)
    ensures nd.off <= nd.len <= |nd.mem| ==> |s| == nd.len - nd.off
  {
    if nd.off <= nd.len <= |nd.mem| then nd.mem[nd.off..nd.len] else []
  }

  /** The bytes of a node that were allocated but not yet flushed. */
  function Allocated(nd: Node): (s: seq<byte>)
    ensures nd.len <= nd.malloc <= |nd.mem| ==> |s| == nd.malloc - nd.len
  {
    if nd.len <= nd.malloc <= |nd.mem| then nd.mem[nd.len..nd.malloc] else []
  }

  /** What part of every node, all together. */
  function Flat(ns: seq<Node>, part: Node -> seq<byte>): seq<byte>
  {
    if ns == [] then [] else part(ns[0]) + Flat(ns[1..], part)
  }

  lemma {:induction false} FlatAppend(a: seq<Node>, b: seq<Node>, part: Node -> seq<byte>)
    ensures Flat(a + b, part) == Flat(a, part) + Flat(b, part)
  {
    if a == [] {
      assert a + b == b;
    } else {
      assert (a + b)[1..] == a[1..] + b;
      FlatAppend(a[1..], b, part);
    }
  }

  lemma FlatAt(ns: seq<Node>, k: nat, part: Node -> seq<byte>)
    requires k < |ns|
    ensures Flat(ns[k..], part) == part(ns[k]) + Flat(ns[k + 1..], part)
  {
    assert ns[k..][1..] == ns[k + 1..];
  }

  lemma {:induction false} FlatNone(ns: seq<Node>, part: Node -> seq<byte>)
    requires forall k :: 0 <= k < |ns| ==> part(ns[k]) == []
    ensures Flat(ns, part) == []
  {
    if ns != [] {
      FlatNone(ns[1..], part);
    }
  }

  /** Two chains that agree part by part hold the same. */
  lemma {:induction false} FlatSame(a: seq<Node>, partA: Node -> seq<byte>, b: seq<Node>, partB: Node -> seq<byte>)
    requires |a| == |b| && forall k :: 0 <= k < |a| ==> partA(a[k]) == partB(b[k])
    ensures Flat(a, partA) == Flat(b, partB)
  {
    if a != [] {
      FlatSame(a[1..], partA, b[1..], partB);
    }
  }

  /** Replacing node k changes only its own part. */
  lemma FlatUpdate(ns: seq<Node>, from: nat, k: nat, nd: Node, part: Node -> seq<byte>)
    requires from <= k < |ns|
    ensures Flat(ns[from..], part) == Flat(ns[from..k], part) + part(ns[k]) + Flat(ns[k + 1..], part)
    ensures Flat(ns[k := nd][from..], part) == Flat(ns[from..k], part) + part(nd) + Flat(ns[k + 1..], part)
  {
    FlatSplit(ns, from, k, part);
    FlatSplit(ns[k := nd], from, k, part);
    assert ns[k := nd][from..k] == ns[from..k] && ns[k := nd][k + 1..] == ns[k + 1..];
  }

  lemma FlatSplit(ns: seq<Node>, from: nat, k: nat, part: Node -> seq<byte>)
    requires from <= k < |ns|
    ensures Flat(ns[from..], part) == Flat(ns[from..k], part) + part(ns[k]) + Flat(ns[k + 1..], part)
  {
    assert ns[from..] == ns[from..k] + ns[k..];
    FlatAppend(ns[from..k], ns[k..], part);
    FlatAt(ns, k, part);
  }

  // ---- the shape of a chain ----

  predicate Sound(nd: Node)
  {
    nd.off <= nd.len <= |nd.mem|
  }

  /** The cursors are in order and say what they should: behind flush nothing can be read, behind write nothing is
      allocated. In a slice flush and write stand behind the last node, and nothing is ever allocated. */
  ghost predicate Shape(ns: seq<Node>, read: nat, flush: nat, write: nat)
  {
    && read <= flush <= write <= |ns| && (write == |ns| ==> flush == |ns|)
    && (forall k :: 0 <= k < |ns| ==> Sound(ns[k]))
    && (forall k :: flush <= k < |ns| ==> ns[k].len <= ns[k].malloc <= |ns[k].mem|)
    && (forall k :: flush < k < |ns| ==> ns[k].off == ns[k].len)
    && (forall k :: write < k < |ns| ==> ns[k].malloc == ns[k].len)
  }

  /** All that can be read lies between the read and the flush cursor. */
  lemma NothingBehindFlush(ns: seq<Node>, read: nat, flush: nat, write: nat)
    requires Shape(ns, read, flush, write) && read < |ns|
    ensures Flat(ns[read..], Unread) == Unread(ns[read]) + Flat(ns[read + 1..], Unread)
    ensures read == flush ==> Flat(ns[read + 1..], Unread) == []
  {
    FlatAt(ns, read, Unread);
    if read == flush {
      FlatNone(ns[read + 1..], Unread);
    }
  }

  /** Taking d bytes out of the node at the read cursor. */
  lemma TakeFromNode(ns: seq<Node>, read: nat, flush: nat, write: nat, d: nat)
    requires Shape(ns, read, flush, write) && read < |ns| && d <= |Unread(ns[read])|
    ensures var nd := ns[read].(off := ns[read].off + d);
            var ns' := ns[read := nd];
            && Shape(ns', read, flush, write)
            && Unread(nd) == Unread(ns[read])[d..]
            && Flat(ns[read..], Unread) == Unread(ns[read])[..d] + Flat(ns'[read..], Unread)
            && Flat(ns'[flush..], Allocated) == Flat(ns[flush..], Allocated)
            && ns'[read + 1..] == ns[read + 1..]
  {
    hide Flat;
    var nd := ns[read].(off := ns[read].off + d);
    var ns' := ns[read := nd];
    FlatAt(ns, read, Unread);
    FlatAt(ns', read, Unread);
    assert ns'[read + 1..] == ns[read + 1..];
    assert Unread(ns[read]) == Unread(ns[read])[..d] + Unread(nd);
    OffsetsDoNotMatter(ns, flush, read, nd.off);
  }

  /** What is allocated does not depend on the offsets of reading. */
  lemma OffsetsDoNotMatter(ns: seq<Node>, flush: nat, k: nat, off: nat)
    requires flush <= |ns| && k < |ns|
    ensures Flat(ns[k := ns[k].(off := off)][flush..], Allocated) == Flat(ns[flush..], Allocated)
  {
    hide Flat;
    FlatSame(ns[k := ns[k].(off := off)][flush..], Allocated, ns[flush..], Allocated);
  }

  /** Releasing the head. */
  lemma DropHead(ns: seq<Node>, read: nat, flush: nat, write: nat)
    requires Shape(ns, read, flush, write) && 0 < read
    ensures Shape(ns[1..], read - 1, flush - 1, write - 1)
    ensures ns[1..][read - 1..] == ns[read..] && ns[1..][flush - 1..] == ns[flush..]
  {
  }

  /** A node that shares the next n bytes of another: Refer. */
  function Shared(nd: Node, n: nat): (r: Node)
    requires Sound(nd) && n <= nd.len - nd.off
    ensures Sound(r) && Unread(r) == Unread(nd)[..n]
  {
    var mem := nd.mem[nd.off..nd.off + n];
    assert mem[0..n] == mem && mem == nd.mem[nd.off..nd.len][..n];
    Node(mem, 0, n, 0)
  }

  /** A list of shared nodes is a slice. */
  lemma SliceShape(ns: seq<Node>)
    requires forall k :: 0 <= k < |ns| ==> Sound(ns[k])
    ensures Shape(ns, 0, |ns|, |ns|) && ns[0..] == ns && ns[|ns|..] == [] && Flat(ns[|ns|..], Allocated) == []
  {
  }

  lemma FlatPush(ns: seq<Node>, nd: Node, part: Node -> seq<byte>)
    ensures Flat(ns + [nd], part) == Flat(ns, part) + part(nd)
  {
    FlatAppend(ns, [nd], part);
    assert [nd][1..] == [];
    assert part(nd) + [] == part(nd);
  }

  // ---- writing ----

  /** The write cursor may move on over nodes that hold nothing. */
  lemma WriteMovesOn(ns: seq<Node>, read: nat, flush: nat, write: nat)
    requires Shape(ns, read, flush, write) && write + 1 < |ns|
    ensures Shape(ns, read, flush, write + 1)
  {
  }

  /** What hangs behind the write cursor holds nothing: it can be replaced by one new node. */
  lemma NewLast(ns: seq<Node>, read: nat, flush: nat, write: nat, nd: Node)
    requires Shape(ns, read, flush, write) && write < |ns|
    requires nd.off == nd.len == 0 && nd.malloc <= |nd.mem|
    ensures var ns' := ns[..write + 1] + [nd];
            && Shape(ns', read, flush, write + 1)
            && Flat(ns'[read..], Unread) == Flat(ns[read..], Unread)
            && Flat(ns'[flush..], Allocated) == Flat(ns[flush..], Allocated) + Allocated(nd)
  {
    hide Flat;
    var ns' := ns[..write + 1] + [nd];
    NothingBehindWrite(ns, read, flush, write, read, Unread);
    NothingBehindWrite(ns, read, flush, write, flush, Allocated);
    assert ns'[read..] == ns[read..write + 1] + [nd] && ns'[flush..] == ns[flush..write + 1] + [nd];
    FlatPush(ns[read..write + 1], nd, Unread);
    FlatPush(ns[flush..write + 1], nd, Allocated);
  }

  lemma NothingBehindWrite(ns: seq<Node>, read: nat, flush: nat, write: nat, from: nat, part: Node -> seq<byte>)
    requires Shape(ns, read, flush, write) && from <= write < |ns| && (part == Unread || part == Allocated)
    ensures Flat(ns[from..], part) == Flat(ns[from..write + 1], part) && Flat(ns[write + 1..], part) == []
  {
    hide Flat;
    assert ns[from..] == ns[from..write + 1] + ns[write + 1..];
    FlatAppend(ns[from..write + 1], ns[write + 1..], part);
    var behind := ns[write + 1..];
    assert forall k :: 0 <= k < |behind| ==> behind[k] == ns[write + 1 + k];
    FlatNone(behind, part);
    assert Flat(ns[from..write + 1], part) + [] == Flat(ns[from..write + 1], part);
  }

  /** Bytes written into the free memory of a node. */
  function Filled(nd: Node, data: seq<byte>): Node
    requires nd.malloc + |data| <= |nd.mem|
  {
    nd.(mem := nd.mem[..nd.malloc] + data + nd.mem[nd.malloc + |data|..], malloc := nd.malloc + |data|)
  }

  lemma FillNode(nd: Node, data: seq<byte>)
    requires Sound(nd) && nd.len <= nd.malloc && nd.malloc + |data| <= |nd.mem|
    ensures var nd' := Filled(nd, data);
            && |nd'.mem| == |nd.mem| && Unread(nd') == Unread(nd) && Allocated(nd') == Allocated(nd) + data
  {
    var nd' := Filled(nd, data);
    var was, now, m := nd.mem, nd'.mem, nd.malloc;
    assert now[..m] == was[..m];
    PrefixSlice(was, m, nd.off, nd.len);
    PrefixSlice(now, m, nd.off, nd.len);
    PrefixSlice(was, m, nd.len, m);
    PrefixSlice(now, m, nd.len, m);
    assert now[nd.len..m + |data|] == now[nd.len..m] + data;
  }

  lemma PrefixSlice(s: seq<byte>, m: nat, i: nat, j: nat)
    requires i <= j <= m <= |s|
    ensures s[..m][i..j] == s[i..j]
  {
  }

  lemma FillLast(ns: seq<Node>, read: nat, flush: nat, write: nat, data: seq<byte>)
    requires Shape(ns, read, flush, write) && write < |ns| && ns[write].malloc + |data| <= |ns[write].mem|
    ensures var ns' := ns[write := Filled(ns[write], data)];
            && Shape(ns', read, flush, write)
            && Flat(ns'[read..], Unread) == Flat(ns[read..], Unread)
            && Flat(ns'[flush..], Allocated) == Flat(ns[flush..], Allocated) + data
  {
    hide Flat, Filled;
    var nd := ns[write];
    var nd' := Filled(nd, data);
    FillNode(nd, data);
    FilledFields(nd, data);
    FlatUpdate(ns, read, write, nd', Unread);
    FlatUpdate(ns, flush, write, nd', Allocated);
    NothingBehindWrite(ns, read, flush, write, flush, Allocated);
  }

  lemma FilledFields(nd: Node, data: seq<byte>)
    requires nd.malloc + |data| <= |nd.mem|
    ensures var nd' := Filled(nd, data);
            nd'.off == nd.off && nd'.len == nd.len && nd'.malloc == nd.malloc + |data|
  {
  }

  // ---- flushing ----

  function Flushed(nd: Node): Node
  {
    if nd.malloc > nd.len then nd.(len := nd.malloc) else nd
  }

  /** ns' is ns with the nodes from flush up to k flushed. */
  ghost predicate FlushedTo(ns: seq<Node>, ns': seq<Node>, flush: nat, k: nat)
  {
    |ns'| == |ns| && forall j :: 0 <= j < |ns| ==> ns'[j] == if flush <= j < k then Flushed(ns[j]) else ns[j]
  }

  lemma FlushedAt(ns: seq<Node>, ns': seq<Node>, flush: nat, k: nat)
    requires FlushedTo(ns, ns', flush, k) && flush < k <= |ns|
    ensures |ns'| == |ns| && ns'[flush] == Flushed(ns[flush])
  {
  }

  lemma FlushNode(nd: Node)
    requires Sound(nd) && nd.len <= nd.malloc <= |nd.mem|
    ensures Sound(Flushed(nd)) && Flushed(nd).malloc == Flushed(nd).len && Allocated(Flushed(nd)) == []
    ensures Unread(Flushed(nd)) == Unread(nd) + Allocated(nd)
    ensures nd.off == nd.len ==> Unread(Flushed(nd)) == Allocated(nd)
  {
  }

  lemma FlushShape(ns: seq<Node>, ns': seq<Node>, read: nat, flush: nat, write: nat)
    requires Shape(ns, read, flush, write) && write < |ns| && FlushedTo(ns, ns', flush, write + 1)
    ensures Shape(ns', read, write, write) && Flat(ns'[write..], Allocated) == []
  {
    hide Flat;
    forall k | write <= k < |ns'|
      ensures ns'[k].malloc == ns'[k].len && (k > write ==> ns'[k].off == ns'[k].len)
    {
      assert ns'[k] == if k == write then Flushed(ns[k]) else ns[k];
    }
    var last := ns'[write..];
    assert forall k :: 0 <= k < |last| ==> last[k] == ns'[write + k];
    FlatNone(last, Allocated);
  }

  /** Flush appends the pending bytes to the readable ones. */
  lemma FlushBytes(ns: seq<Node>, ns': seq<Node>, read: nat, flush: nat, write: nat)
    requires Shape(ns, read, flush, write) && write < |ns| && FlushedTo(ns, ns', flush, write + 1)
    ensures Flat(ns'[read..], Unread) == Flat(ns[read..], Unread) + Flat(ns[flush..], Allocated)
  {
    hide Flat;
    FlatSplit(ns, read, flush, Unread);
    FlatSplit(ns', read, flush, Unread);
    FlatAt(ns, flush, Allocated);
    FlushNode(ns[flush]);
    assert ns'[read..flush] == ns[read..flush];
    BehindFlush(ns, ns', read, flush, write);
    calc {
      Flat(ns'[read..], Unread);
      Flat(ns[read..flush], Unread) + (Unread(ns[flush]) + Allocated(ns[flush])) + Flat(ns[flush + 1..], Allocated);
      Flat(ns[read..flush], Unread) + Unread(ns[flush]) + [] + (Allocated(ns[flush]) + Flat(ns[flush + 1..], Allocated));
    }
  }

  lemma BehindFlush(ns: seq<Node>, ns': seq<Node>, read: nat, flush: nat, write: nat)
    requires Shape(ns, read, flush, write) && write < |ns| && FlushedTo(ns, ns', flush, write + 1)
    ensures Flat(ns[flush + 1..], Unread) == []
    ensures Flat(ns'[flush + 1..], Unread) == Flat(ns[flush + 1..], Allocated)
  {
    hide Flat;
    var a, b := ns[flush + 1..], ns'[flush + 1..];
    assert forall k :: 0 <= k < |a| ==> a[k] == ns[flush + 1 + k];
    FlatNone(a, Unread);
    forall k | 0 <= k < |a|
      ensures Unread(b[k]) == Allocated(a[k])
    {
      assert b[k] == ns'[flush + 1 + k];
      FlushNode(a[k]);
    }
    FlatSame(b, Unread, a, Allocated);
  }

  // ---- giving allocated bytes back ----

  /** MallocAck's end: the write cursor is set back to w, whose node keeps keep allocated bytes, and the nodes
      behind it are emptied. */
  ghost predicate AckedAt(ns: seq<Node>, ns': seq<Node>, w: nat, malloc: nat)
  {
    && |ns'| == |ns|
    && forall j :: 0 <= j < |ns| ==> ns'[j] == if j < w then ns[j]
                                               else if j == w then ns[j].(malloc := malloc)
                                               else ns[j].(off := 0, malloc := 0, len := 0)
  }

  lemma AckNode(nd: Node, malloc: nat)
    requires Sound(nd) && nd.len <= malloc <= nd.malloc <= |nd.mem|
    ensures var nd' := nd.(malloc := malloc);
            Unread(nd') == Unread(nd) && Allocated(nd') == Allocated(nd)[..malloc - nd.len]
  {
    assert nd.mem[nd.len..malloc] == nd.mem[nd.len..nd.malloc][..malloc - nd.len];
  }

  lemma AckShape(ns: seq<Node>, ns': seq<Node>, read: nat, flush: nat, write: nat, w: nat, malloc: nat)
    requires Shape(ns, read, flush, write) && flush <= w < |ns| && AckedAt(ns, ns', w, malloc)
    requires ns[w].len <= malloc <= ns[w].malloc
    ensures Shape(ns', read, flush, w)
    ensures forall k :: 0 <= k < |ns| ==> Unread(ns'[k]) == Unread(ns[k])
    ensures forall k :: w < k < |ns| ==> Allocated(ns'[k]) == []
  {
    forall k | 0 <= k < |ns|
      ensures Sound(ns'[k]) && Unread(ns'[k]) == Unread(ns[k]) && (k > w ==> Allocated(ns'[k]) == [])
      ensures k > w ==> ns'[k].off == ns'[k].len == ns'[k].malloc
      ensures k <= w ==> ns'[k].off == ns[k].off && ns'[k].len == ns[k].len && ns'[k].mem == ns[k].mem
    {
    }
  }

  lemma AckChain(ns: seq<Node>, ns': seq<Node>, read: nat, flush: nat, write: nat, w: nat, malloc: nat)
    requires Shape(ns, read, flush, write) && flush <= w < |ns| && AckedAt(ns, ns', w, malloc)
    requires ns[w].len <= malloc <= ns[w].malloc
    ensures Shape(ns', read, flush, w)
    ensures Flat(ns'[read..], Unread) == Flat(ns[read..], Unread)
    ensures Flat(ns'[flush..], Allocated) == Flat(ns[flush..w], Allocated) + Allocated(ns[w])[..malloc - ns[w].len]
  {
    hide Flat, Unread, Allocated;
    AckShape(ns, ns', read, flush, write, w, malloc);
    AckNode(ns[w], malloc);
    FlatSame(ns'[read..], Unread, ns[read..], Unread);
    FlatSplit(ns', flush, w, Allocated);
    assert ns'[flush..w] == ns[flush..w];
    var behind := ns'[w + 1..];
    assert forall k :: 0 <= k < |behind| ==> behind[k] == ns'[w + 1 + k];
    FlatNone(behind, Allocated);
    assert Flat(ns[flush..w], Allocated) + Allocated(ns'[w]) + [] == Flat(ns[flush..w], Allocated) + Allocated(ns'[w]);
  }

  // ---- inserting a node ----

  /** Nodes mid, with nothing to read, take the place of node o, whose unread bytes the first of them keeps. */
  lemma Insert(ns: seq<Node>, read: nat, flush: nat, write: nat, o: nat, mid: seq<Node>)
    requires Shape(ns, read, flush, write) && flush <= o < |ns| && mid != []
    requires Unread(mid[0]) == Unread(ns[o]) && mid[0].off == ns[o].off && mid[0].len == ns[o].len
    requires forall k :: 0 <= k < |mid| ==> Sound(mid[k]) && mid[k].len <= mid[k].malloc <= |mid[k].mem|
    requires forall k :: 0 < k < |mid| ==> mid[k].off == mid[k].len
    ensures var ns' := ns[..o] + mid + ns[o + 1..];
            && Shape(ns', read, flush, |ns'| - 1)
            && Flat(ns'[read..], Unread) == Flat(ns[read..], Unread)
            && Flat(ns'[flush..], Allocated) ==
               Flat(ns[flush..o], Allocated) + Flat(mid, Allocated) + Flat(ns[o + 1..], Allocated)
  {
    hide Flat, Shape;
    InsertShape(ns, read, flush, write, o, mid);
    ShapeCursors(ns, read, flush, write);
    InsertFlat(ns, read, o, mid, Unread);
    InsertFlat(ns, flush, o, mid, Allocated);
    FlatSplit(ns, read, o, Unread);
    FlatHead(mid, Unread);
    FlatNone(mid[1..], Unread);
    assert Unread(ns[o]) + [] == Unread(ns[o]);
  }

  lemma ShapeCursors(ns: seq<Node>, read: nat, flush: nat, write: nat)
    requires Shape(ns, read, flush, write)
    ensures read <= flush <= write <= |ns|
  {
  }

  lemma FlatHead(ns: seq<Node>, part: Node -> seq<byte>)
    requires ns != []
    ensures Flat(ns, part) == part(ns[0]) + Flat(ns[1..], part)
  {
  }

  lemma InsertFlat(ns: seq<Node>, from: nat, o: nat, mid: seq<Node>, part: Node -> seq<byte>)
    requires from <= o < |ns|
    ensures var ns' := ns[..o] + mid + ns[o + 1..];
            Flat(ns'[from..], part) == Flat(ns[from..o], part) + Flat(mid, part) + Flat(ns[o + 1..], part)
  {
    hide Flat;
    var ns' := ns[..o] + mid + ns[o + 1..];
    assert ns'[from..] == ns[from..o] + mid + ns[o + 1..];
    FlatAppend(ns[from..o] + mid, ns[o + 1..], part);
    FlatAppend(ns[from..o], mid, part);
  }

  lemma InsertShape(ns: seq<Node>, read: nat, flush: nat, write: nat, o: nat, mid: seq<Node>)
    requires Shape(ns, read, flush, write) && flush <= o < |ns| && mid != []
    requires mid[0].off == ns[o].off && mid[0].len == ns[o].len
    requires forall k :: 0 <= k < |mid| ==> Sound(mid[k]) && mid[k].len <= mid[k].malloc <= |mid[k].mem|
    requires forall k :: 0 < k < |mid| ==> mid[k].off == mid[k].len
    ensures var ns' := ns[..o] + mid + ns[o + 1..]; Shape(ns', read, flush, |ns'| - 1)
  {
    var ns' := ns[..o] + mid + ns[o + 1..];
    forall k | 0 <= k < |ns'|
      ensures Sound(ns'[k]) && (k >= flush ==> ns'[k].len <= ns'[k].malloc <= |ns'[k].mem|)
      ensures k > flush ==> ns'[k].off == ns'[k].len
    {
      if k < o {
        assert ns'[k] == ns[k];
      } else if k < o + |mid| {
        assert ns'[k] == mid[k - o];
      } else {
        assert ns'[k] == ns[k - |mid| + 1];
      }
    }
  }
}
