/** UnsafeLinkBuffer: a queue of bytes over a chain of nodes. What was flushed can be read, what was allocated
    since is pending. */
module LinkBuffer {
  import opened Bytes
  import opened NodeChain
  import opened NodeRefs
  import opened NodeTable

  const BLOCK_1K: nat := 1024
  /** The largest block the memory pool hands out. */
  const MALLOC_MAX: nat := 8 * 1024 * 1024
  const BLOCK_4K: nat := 4096
  /** LinkBufferCap */
  const NODE_CAP: nat := BLOCK_4K
  const INPLACE_THRESHOLD: nat := BLOCK_4K
  const PAGE_SIZE: nat := 8192

  function Left(nd: Node): int
  {
    nd.len - nd.off
  }

  lemma NodeIn(ns: seq<Node>, read: nat, flush: nat, write: nat, k: nat)
    requires Shape(ns, read, flush, write) && k < |ns|
    ensures Sound(ns[k]) && Left(ns[k]) == |Unread(ns[k])| && Unread(ns[k]) == ns[k].mem[ns[k].off..ns[k].len]
  {
  }

  /** One round of a loop that still needs ack bytes: they are in this node, or there is a next one to go to. */
  lemma ReadRound(ns: seq<Node>, read: nat, flush: nat, write: nat, ack: nat)
    requires Shape(ns, read, flush, write) && 0 < ack <= |Flat(ns[read..], Unread)|
    ensures read < |ns| && Sound(ns[read]) && Left(ns[read]) == |Unread(ns[read])|
    ensures Flat(ns[read..], Unread) == Unread(ns[read]) + Flat(ns[read + 1..], Unread)
    ensures |Unread(ns[read])| < ack ==> read < flush && Shape(ns, read + 1, flush, write)
  {
    assert ns[read..] != [];
    NothingBehindFlush(ns, read, flush, write);
    NodeIn(ns, read, flush, write, read);
  }

  /** Where the bytes of a result lie: in a node of the buffer, in memory that the buffer gives back with the next
      Release, or in memory of their own. */
  datatype Home = InNode(id: nat) | InCache(i: nat) | Private

  class LinkBuffer {
    /** Node i of the chain from head on is nodes[i], and ids[i] in the table of all nodes. */
    const refs: RefTable
    var ids: seq<nat>
    var nodes: seq<Node>
    var read: nat
    var flush: nat
    var write: nat
    var length: int
    var mallocSize: int
    /** Results of Next that lie in memory of their own until Release. */
    var caches: seq<seq<byte>>
    var cachePeek: seq<byte>
    var peekCap: nat

    ghost predicate Shaped()
      reads this
    {
      read <= flush <= |nodes| && Shape(nodes, read, flush, write)
    }

    ghost function Readable(): seq<byte>
      reads this
      requires read <= |nodes|
    {
      Flat(nodes[read..], Unread)
    }

    ghost function Pending(): seq<byte>
      reads this
      requires flush <= |nodes|
    {
      Flat(nodes[flush..], Allocated)
    }

    /** A queue of bytes; the peek cache always shows its front. */
    ghost predicate Queue()
      reads this
    {
      && Shaped()
      && length == |Readable()| && mallocSize == |Pending()|
      && cachePeek <= Readable() && |cachePeek| <= peekCap
    }

    /** The buffer holds its nodes: none has been released, and none is there twice. */
    ghost predicate Held()
      reads this, refs
    {
      refs.Valid() && Holding(ids, |nodes|, refs.t, flush < |nodes|)
    }

    ghost predicate Valid()
      reads this, refs
    {
      Queue() && Held()
    }

    lemma QueueSizes()
      requires Queue()
      ensures read <= |nodes| && flush <= |nodes| && length == |Readable()| && mallocSize == |Pending()|
    {
    }

    /** NewLinkBuffer: room for size bytes, nothing to read. */
    constructor (refs: RefTable, size: int)
      requires refs.Valid()
      modifies refs
      ensures Valid() && this.refs == refs && Readable() == [] && Pending() == [] && |nodes| == 1 && caches == []
      ensures refs.steps == old(refs.steps) + [Create(size > 0)] && ids == [old(|refs.t.nodes|)]
      ensures refs.t == Created(old(refs.t), size > 0)
      ensures |nodes[0].mem| >= size && nodes[0].off == nodes[0].len == nodes[0].malloc == 0 && read == flush == write == 0
    {
      hide Counted, Run, Flat;
      FlatEmpty();
      var node := NewNode(size);
      var id := refs.New(size > 0);
      this.refs := refs;
      ids, nodes, read, flush, write := [id], [node], 0, 0, 0;
      length, mallocSize, caches, cachePeek, peekCap := 0, 0, [], [], 0;
      new;
      assert nodes[0..] == nodes && nodes[1..] == [];
      assert Unread(node) == [] && Allocated(node) == [];
      FlatAt(nodes, 0, Unread);
      FlatAt(nodes, 0, Allocated);
    }

    /** The buffer that Slice hands out: flush and write are nil. */
    constructor Sliced(refs: RefTable, ids: seq<nat>, ns: seq<Node>)
      requires refs.Valid() && Holding(ids, |ns|, refs.t, false)
      requires forall k :: 0 <= k < |ns| ==> Sound(ns[k])
      ensures Valid() && this.refs == refs && this.ids == ids && nodes == ns && flush == |ns| && caches == []
      ensures Readable() == Flat(ns, Unread) && Pending() == []
    {
      hide Flat, Holding, Counted, Run;
      SliceShape(ns);
      this.refs, this.ids := refs, ids;
      nodes, read, flush, write := ns, 0, |ns|, |ns|;
      length, mallocSize, caches, cachePeek, peekCap := |Flat(ns, Unread)|, 0, [], [], 0;
    }

    // ---- reading ----

    method RecalLen(delta: int)
      modifies `length, `cachePeek
      ensures length == old(length) + delta
      ensures cachePeek == if delta < 0 then [] else old(cachePeek)
    {
      if delta < 0 && |cachePeek| > 0 {
        cachePeek := [];
      }
      length := length + delta;
    }

    /** isSingleNode: passes empty nodes and says whether the first readN bytes lie in one node. */
    method IsSingleNode(readN: nat) returns (single: bool)
      requires Shaped() && 0 < readN <= |Readable()|
      modifies `read
      ensures Shaped() && read < |nodes| && Readable() == old(Readable())
      ensures single <==> |Unread(nodes[read])| >= readN
      ensures |Unread(nodes[read])| > 0
      ensures old(read) < |nodes| && |Unread(nodes[old(read)])| > 0 ==> read == old(read)
    {
      hide Flat, Shape, Unread;
      ReadRound(nodes, read, flush, write, 1);
      var l := Left(nodes[read]);
      while l == 0 && read != flush
        invariant Shaped() && read < |nodes| && Readable() == old(Readable()) && l == |Unread(nodes[read])|
        invariant l == 0 ==> read < flush
        invariant old(read) < |nodes| && |Unread(nodes[old(read)])| > 0 ==> read == old(read)
        decreases flush - read
      {
        ReadRound(nodes, read, flush, write, 1);
        assert Unread(nodes[read]) + Flat(nodes[read + 1..], Unread) == Flat(nodes[read + 1..], Unread);
        read := read + 1;
        ReadRound(nodes, read, flush, write, 1);
        l := Left(nodes[read]);
      }
      return l >= readN;
    }

    /** linkBufferNode.Next on the node at the read cursor. */
    method TakeHere(n: nat) returns (p: seq<byte>)
      requires Shaped() && read < |nodes| && n <= |Unread(nodes[read])|
      modifies `nodes
      ensures Shaped() && |nodes| == old(|nodes|) && p == Unread(old(nodes[read]))[..n]
      ensures old(Readable()) == p + Readable() && Pending() == old(Pending())
      ensures Unread(nodes[read]) == Unread(old(nodes[read]))[n..]
      ensures nodes[read + 1..] == old(nodes[read + 1..])
    {
      hide Flat, Shape;
      NodeIn(nodes, read, flush, write, read);
      TakeFromNode(nodes, read, flush, write, n);
      var nd := nodes[read];
      p := nd.mem[nd.off..nd.off + n];
      nodes := nodes[read := nd.(off := nd.off + n)];
    }

    /** One round of the loops over several nodes: takes what this node has of the ack bytes that are still wanted, and
        goes on to the next node if they are not all there. */
    method TakeRound(ack: nat) returns (q: seq<byte>)
      requires Shaped() && 0 < ack <= |Readable()|
      modifies `nodes, `read
      ensures Shaped() && |nodes| == old(|nodes|) && Pending() == old(Pending())
      ensures old(Readable()) == q + Readable() && |q| <= ack && read <= flush
      ensures |q| < ack ==> read == old(read) + 1
    {
      hide Flat, Shape, Unread, Allocated;
      ReadRound(nodes, read, flush, write, ack);
      var l := Left(nodes[read]);
      q := [];
      if l >= ack {
        q := TakeHere(ack);
        return;
      }
      if l > 0 {
        q := TakeHere(l);
      }
      NodePassed(nodes, read, flush, write);
      read := read + 1;
    }

    /** The loop of Next and readBinary over several nodes. */
    method TakeAcross(n: nat) returns (p: seq<byte>)
      requires Shaped() && n <= |Readable()|
      modifies `nodes, `read
      ensures Shaped() && |nodes| == old(|nodes|)
      ensures p == old(Readable())[..n] && Readable() == old(Readable())[n..] && Pending() == old(Pending())
    {
      hide Flat, Shape, Unread, Allocated;
      p := [];
      ghost var all := Readable();
      while |p| < n
        invariant Shaped() && |nodes| == old(|nodes|) && Pending() == old(Pending())
        invariant |p| <= n && all == p + Readable()
        decreases |p| < n, flush - read
      {
        var q := TakeRound(n - |p|);
        Regroup(p, q, Readable());
        p := p + q;
      }
      Regroup(p, [], Readable());
    }

    /** Next: within one node the bytes stay where they are; across nodes they are copied, into memory that Release gives
        back if the block is neither small nor too large for the pool. */
    method Next(n: int) returns (p: seq<byte>, ok: bool, home: Home)
      requires Valid()
      modifies `nodes, `read, `length, `cachePeek, `caches
      ensures Valid() && (ok <==> n <= old(|Readable()|)) && Pending() == old(Pending()) && |nodes| == old(|nodes|)
      ensures ok && n > 0 ==> p == old(Readable())[..n] && Readable() == old(Readable())[n..]
      ensures !ok || n <= 0 ==> p == [] && Readable() == old(Readable()) && home == Private
      ensures home.InNode? ==> home.id in ids && caches == old(caches)
      ensures home.InCache? ==> caches == old(caches) + [p] && home.i == old(|caches|) && BLOCK_1K < n <= MALLOC_MAX
      ensures home.Private? ==> caches == old(caches)
      ensures ok && n > 0 && !home.InNode? ==> (home.InCache? <==> 1024 < n <= 8388608)
      ensures ok && n > 0 && old(read) < |nodes| == |ids| && |Unread(old(nodes)[old(read)])| >= n ==> home == InNode(ids[old(read)])
    {
      hide Flat, Shape, Unread, Holding, RefTable.Valid;
      home := Private;
      if n <= 0 {
        return [], true, home;
      }
      if length < n {
        return [], false, home;
      }
      RecalLen(-n);
      ok := true;
      var single := IsSingleNode(n);
      if single {
        HoldingLength(ids, |nodes|, refs.t, flush < |nodes|);
        home := InNode(ids[read]);
        p := TakeHere(n);
        return;
      }
      p := TakeAcross(n);
      if BLOCK_1K < n <= MALLOC_MAX {
        home := InCache(|caches|);
        caches := caches + [p];
      }
    }

    /** ReadBinary: always a copy that nobody else has; no node is ever put into the nocopyRead mode. */
    method ReadBinary(n: int) returns (p: seq<byte>, ok: bool)
      requires Valid()
      modifies `nodes, `read, `length, `cachePeek
      ensures Valid() && (ok <==> n <= old(|Readable()|)) && Pending() == old(Pending()) && |nodes| == old(|nodes|)
      ensures ok && n > 0 ==> p == old(Readable())[..n] && Readable() == old(Readable())[n..]
      ensures !ok || n <= 0 ==> p == [] && Readable() == old(Readable())
    {
      hide Flat, Shape, Unread, Holding, RefTable.Valid;
      if n <= 0 {
        return [], true;
      }
      if length < n {
        return [], false;
      }
      RecalLen(-n);
      ok := true;
      var single := IsSingleNode(n);
      if single {
        p := TakeHere(n);
      } else {
        p := TakeAcross(n);
      }
    }

    /** Skip leaves the offsets of the nodes it passes as they are. */
    method Skip(n: int) returns (ok: bool)
      requires Valid()
      modifies `nodes, `read, `length, `cachePeek
      ensures Valid() && (ok <==> n <= old(|Readable()|)) && Pending() == old(Pending())
      ensures Readable() == (if ok && n > 0 then old(Readable())[n..] else old(Readable())) && |nodes| == old(|nodes|)
    {
      hide Flat, Shape, Unread, Holding, RefTable.Valid;
      if n <= 0 {
        return true;
      }
      if length < n {
        return false;
      }
      RecalLen(-n);
      ok := true;
      var ack := n;
      ghost var all := Readable();
      while ack > 0
        invariant Shaped() && nodes == old(nodes) && flush == old(flush)
        invariant length == old(length) - n && cachePeek == [] && mallocSize == old(mallocSize)
        invariant 0 <= ack <= n && Readable() == all[n - ack..]
        decreases ack > 0, flush - read
      {
        ReadRound(nodes, read, flush, write, ack);
        var l := Left(nodes[read]);
        if l >= ack {
          var _ := TakeHere(ack);
          ack := 0;
          break;
        }
        read := read + 1;
        ack := ack - l;
      }
    }

    method ReadByte() returns (c: byte, ok: bool)
      requires Valid()
      modifies `nodes, `read, `length, `cachePeek
      ensures Valid() && (ok <==> old(Readable()) != []) && Pending() == old(Pending())
      ensures ok ==> c == old(Readable())[0] && Readable() == old(Readable())[1..]
      ensures !ok ==> Readable() == old(Readable())
    {
      hide Flat, Shape, Unread, Holding, RefTable.Valid;
      if length < 1 {
        return 0, false;
      }
      RecalLen(-1);
      while true
        invariant Shaped() && nodes == old(nodes) && flush == old(flush) && Readable() == old(Readable())
        invariant length == old(length) - 1 && cachePeek == [] && mallocSize == old(mallocSize)
        decreases flush - read
      {
        ReadRound(nodes, read, flush, write, 1);
        if Left(nodes[read]) >= 1 {
          var p := TakeHere(1);
          return p[0], true;
        }
        assert Unread(nodes[read]) + Flat(nodes[read + 1..], Unread) == Flat(nodes[read + 1..], Unread);
        read := read + 1;
      }
    }

    /** Peek: in one node its own bytes, else through the cache, which only ever grows at its end. */
    method Peek(n: int) returns (p: seq<byte>, ok: bool)
      requires Valid()
      modifies `read, `cachePeek, `peekCap
      ensures Valid() && (ok <==> n <= |Readable()|) && Pending() == old(Pending()) && Readable() == old(Readable())
      ensures p == if ok && n > 0 then Readable()[..n] else []
    {
      hide Flat, Shape, Unread, Holding, RefTable.Valid;
      if n <= 0 {
        return [], true;
      }
      if length < n {
        return [], false;
      }
      ok := true;
      var single := IsSingleNode(n);
      if single {
        NodeIn(nodes, read, flush, write, read);
        ReadRound(nodes, read, flush, write, n);
        var nd := nodes[read];
        p := nd.mem[nd.off..nd.off + n];
        PeekHere(nd, n, Flat(nodes[read + 1..], Unread));
        return;
      }
      if peekCap < n {
        cachePeek := [];
        var room: nat :| room >= n;
        peekCap := room;
      }
      p := cachePeek;
      if |p| >= n {
        return p[..n], true;
      }
      p := PeekAcross(p, n);
      cachePeek := p;
    }

    /** The loop of Peek: p is the front of the queue, and node by node it becomes longer. */
    method PeekAcross(start: seq<byte>, n: nat) returns (p: seq<byte>)
      requires Shaped() && start <= Readable() && |start| <= n <= |Readable()|
      ensures p == Readable()[..n]
    {
      hide Flat, Shape, Unread;
      p := start;
      var scanned, node := 0, read;
      ghost var all := Readable();
      assert all[0..] == all;
      while |p| < n
        invariant read <= node <= flush && Shape(nodes, node, flush, write) && p <= all && |start| <= |p| <= n
        invariant 0 <= scanned <= |all| && Flat(nodes[node..], Unread) == all[scanned..]
        invariant scanned <= |p|
        decreases flush - node
      {
        ReadRound(nodes, node, flush, write, |p| - scanned + 1);
        NodeIn(nodes, node, flush, write, node);
        var nd := nodes[node];
        var l := Left(nd);
        PeekRound(all, scanned, Unread(nd), Flat(nodes[node + 1..], Unread));
        if scanned + l <= |p| {
          scanned := scanned + l;
          node := node + 1;
          continue;
        }
        var from := |p| - scanned;
        var copyn := n - |p|;
        if copyn > l - from {
          copyn := l - from;
        }
        var bytes := nd.mem[nd.off..nd.len];
        PeekGrows(all, scanned, bytes, p, copyn);
        p := p + bytes[from..from + copyn];
        if |p| == n {
          break;
        }
        scanned := scanned + l;
        ReadRound(nodes, node, flush, write, l + 1);
        node := node + 1;
      }
    }

    /** indexByte: the first c at or behind skip. */
    method IndexOf(c: byte, skip: nat) returns (i: int)
      requires Queue()
      ensures FoundAt(Readable(), c, skip, i)
    {
      hide Flat, Shape, Unread, IndexByte, FoundAt, Without;
      var size := length;
      if skip >= size {
        NothingToSearch(Readable(), c, skip);
        return -1;
      }
      var unread, node, toSkip := size, read, skip;
      ghost var all := Readable();
      assert all[0..] == all;
      NothingSearched(all, c, skip);
      while unread > 0
        invariant 0 <= unread <= size && read <= node <= flush && 0 <= toSkip
        invariant unread > 0 ==> Shape(nodes, node, flush, write)
        invariant node <= |nodes| && (unread > 0 ==> Flat(nodes[node..], Unread) == all[size - unread..])
        invariant toSkip == (if skip > size - unread then skip - (size - unread) else 0)
        invariant Without(all, c, skip, size - unread)
        decreases unread, flush - node
      {
        ReadRound(nodes, node, flush, write, unread);
        NodeIn(nodes, node, flush, write, node);
        var nd := nodes[node];
        var l := Left(nd);
        var n := if l >= unread then unread else l;
        PeekRound(all, size - unread, Unread(nd), Flat(nodes[node + 1..], Unread));
        if toSkip >= n {
          SearchSkips(all, c, skip, size - unread, n);
          toSkip := toSkip - n;
        } else {
          SearchHere(all, c, skip, size - unread, Unread(nd), toSkip, n);
          var i := IndexByte(nd.mem[nd.off..nd.len][toSkip..n], c);
          if i >= 0 {
            return (size - unread) + toSkip + i;
          }
          toSkip := 0;
        }
        unread := unread - n;
        if unread == 0 {
          break;
        }
        node := node + 1;
      }
      return -1;
    }

    method Until(delim: byte) returns (line: seq<byte>, ok: bool)
      requires Valid()
      modifies `nodes, `read, `length, `cachePeek, `caches
      ensures Valid() && Pending() == old(Pending()) && (ok <==> delim in old(Readable()))
      ensures ok ==> old(Readable()) == line + Readable() && line != [] && line[|line| - 1] == delim
                     && delim !in line[..|line| - 1]
      ensures !ok ==> line == [] && Readable() == old(Readable())
    {
      hide Flat, Shape, Holding, RefTable.Valid;
      ghost var all := Readable();
      var n := IndexOf(delim, 0);
      if n < 0 {
        return [], false;
      }
      var home;
      line, ok, home := Next(n + 1);
    }

    /** Bytes, for a buffer that is not a slice. */
    method AllBytes() returns (p: seq<byte>)
      requires Queue() && flush < |nodes|
      ensures p == Readable()
    {
      hide Flat, Shape, Unread;
      var node := read;
      p := [];
      while node != flush
        invariant read <= node <= flush && Shape(nodes, node, flush, write)
        invariant p + Flat(nodes[node..], Unread) == Readable()
        decreases flush - node
      {
        NodeIn(nodes, node, flush, write, node);
        NothingBehindFlush(nodes, node, flush, write);
        var nd := nodes[node];
        assert Shape(nodes, node + 1, flush, write) by { NextShape(nodes, node, flush, write); }
        assert p + (Unread(nd) + Flat(nodes[node + 1..], Unread)) == (p + Unread(nd)) + Flat(nodes[node + 1..], Unread);
        p := p + nd.mem[nd.off..nd.len];
        node := node + 1;
      }
      NodeIn(nodes, node, flush, write, node);
      NothingBehindFlush(nodes, node, flush, write);
      p := p + nodes[node].mem[nodes[node].off..nodes[node].len];
    }

    /** The first loop of Release. */
    method PassEmpty()
      requires Queue()
      modifies `read
      ensures Queue() && Readable() == old(Readable())
      ensures read != flush ==> read < |nodes| && Unread(nodes[read]) != []
    {
      hide Flat, Shape, Unread;
      while read != flush && Left(nodes[read]) == 0
        invariant Queue() && Readable() == old(Readable())
        decreases flush - read
      {
        NodeIn(nodes, read, flush, write, read);
        NodePassed(nodes, read, flush, write);
        read := read + 1;
      }
      if read < |nodes| {
        NodeIn(nodes, read, flush, write, read);
      }
    }

    /** One round of the second loop of Release: the head of the chain is released. */
    method DropFirst()
      requires Valid() && 0 < read
      modifies `ids, `nodes, `read, `flush, `write, refs
      ensures Valid() && Readable() == old(Readable()) && Pending() == old(Pending())
      ensures old(ids) != [] && ids == old(ids)[1..] && refs.steps == old(refs.steps) + [Step.Release(old(ids)[0])]
      ensures Untouched(old(refs.t), refs.t, old(ids))
      ensures nodes == old(nodes)[1..] && read == old(read) - 1 && flush == old(flush) - 1
    {
      hide Flat, Shape, Unread, Holding, Counted, Run, Released, Untouched;
      DropHead(nodes, read, flush, write);
      ShapeOrder(nodes, read, flush, write);
      HoldingAt(ids, |nodes|, refs.t, flush < |nodes|, 0);
      HeldCounts(refs.t, ids[0]);
      ReleasedHolding(refs.t, ids, |nodes|, flush < |nodes|);
      refs.Release(ids[0]);
      ids, nodes, read, flush, write := ids[1..], nodes[1..], read - 1, flush - 1, write - 1;
    }

    /** Release: the nodes that have been read are released, each once. Readable and pending bytes stay. */
    method Release()
      requires Valid()
      modifies this, refs
      ensures Valid() && Readable() == old(Readable()) && Pending() == old(Pending())
      ensures cachePeek == [] && caches == [] && read == 0 && |ids| <= old(|ids|)
      ensures var k := old(|ids|) - |ids|;
              ids == old(ids)[k..] && refs.steps == old(refs.steps) + Releases(old(ids)[..k])
      ensures Untouched(old(refs.t), refs.t, old(ids)) && NewOnly(old(ids), ids, old(|refs.t.nodes|))
      ensures flush < |nodes| <==> old(flush < |nodes|)
      ensures flush > 0 ==> nodes != [] && Unread(nodes[0]) != []
    {
      hide Flat, Shape, Unread, Holding, RefTable.Valid, Untouched, Releases;
      PassEmpty();
      ghost var all, steps, k := ids, refs.steps, 0;
      ReleaseStarts(refs.t, all, steps);
      while read != 0
        invariant Valid() && Readable() == old(Readable()) && Pending() == old(Pending())
        invariant flush < |nodes| <==> old(flush < |nodes|)
        invariant read != flush ==> read < |nodes| && Unread(nodes[read]) != []
        invariant 0 <= k <= |all| && ids == all[k..] && refs.steps == steps + Releases(all[..k])
        invariant Untouched(old(refs.t), refs.t, all)
        decreases read
      {
        ghost var t, held := refs.t, ids;
        DropFirst();
        ReleaseOne(old(refs.t), t, refs.t, all, k, steps);
        k := k + 1;
      }
      caches, cachePeek, peekCap := [], [], 0;
    }

    /** Close: every node is released, each once. */
    method Close()
      requires Valid()
      modifies this, refs
      ensures ids == [] && nodes == [] && length == 0 && mallocSize == 0
      ensures refs.Valid() && refs.steps == old(refs.steps) + Releases(old(ids)) && Untouched(old(refs.t), refs.t, old(ids))
    {
      hide Flat, Shape, Unread, Holding, Untouched, Releases, Counted, Run, Released;
      ghost var all, steps, start := ids, refs.steps, refs.t;
      Release();
      HoldingWeaker(ids, |nodes|, refs.t, flush < |nodes|);
      ghost var k := |all| - |ids|;
      while |ids| > 0
        invariant refs.Valid() && Holding(ids, |ids|, refs.t, false)
        invariant 0 <= k <= |all| && ids == all[k..] && refs.steps == steps + Releases(all[..k])
        invariant Untouched(start, refs.t, all)
        decreases |ids|
      {
        ghost var t := refs.t;
        HoldingAt(ids, |ids|, refs.t, false, 0);
        HeldCounts(refs.t, ids[0]);
        ReleasedHolding(refs.t, ids, |ids|, false);
        refs.Release(ids[0]);
        ReleaseOne(start, t, refs.t, all, k, steps);
        ids := ids[1..];
        k := k + 1;
      }
      assert all[..k] == all;
      nodes, read, flush, write, length, mallocSize := [], 0, 0, 0, 0, 0;
    }

    /** Slice: the first n bytes as a buffer of their own that shares the memory. It also releases what has been
        read, but only if the bytes lay in more than one node; the nodes of a slice of one node stay. The slice holds one
        new node for every node it shares memory with. */
    method Slice(n: int) returns (r: LinkBuffer?, ok: bool, ghost from: seq<nat>)
      requires Valid()
      modifies this, refs
      ensures Valid() && (ok <==> n <= old(|Readable()|)) && Pending() == old(Pending())
      ensures ok ==> r != null && fresh(r) && r.refs == refs && r.Valid() && r.Pending() == []
      ensures ok && n > 0 ==> r.Readable() == old(Readable())[..n] && Readable() == old(Readable())[n..]
                              && r.flush == |r.nodes|
                              && (|r.nodes| > 1 ==> read == 0) && (|r.nodes| <= 1 ==> |nodes| == old(|nodes|))
      ensures ok && n <= 0 ==> r.Readable() == []
      ensures !ok || n <= 0 ==> Readable() == old(Readable()) && ids == old(ids) && from == []
      ensures |ids| <= old(|ids|) && ids == old(ids)[old(|ids|) - |ids|..]
      ensures ok && n > 0 ==>
                && (forall i :: 0 <= i < |from| ==> from[i] in old(ids))
                && r.ids == Upward(old(|refs.t.nodes|), |from|)
                && refs.steps == old(refs.steps) + Refers(from) + Releases(old(ids)[..old(|ids|) - |ids|])
      ensures !ok ==> refs.steps == old(refs.steps)
      ensures ok && n <= 0 ==> refs.steps == old(refs.steps) + [Create(false)]
      ensures Untouched(old(refs.t), refs.t, old(ids))
      ensures ok && n > 0 && old(read) < old(|nodes|) == old(|ids|) && n <= |Unread(old(nodes[read]))| ==>
                from == [old(ids[read])] && ids == old(ids)
    {
      hide Flat, Shape, Unread, Allocated, Holding, Untouched, NewOnly, Upward, Refers, Releases, RefTable.Valid, Created, Queue;
      from := [];
      QueueSizes();
      UntouchedSelf(refs.t, ids);
      if n <= 0 {
        CreatedHolding(refs.t, false, ids, |nodes|, flush < |nodes|, 0);
        r := new LinkBuffer(refs, 0);
        return r, true, from;
      }
      if length < n {
        return null, false, from;
      }
      r, from := SliceSome(n);
      ok := true;
    }

    /** Slice of bytes that are there. */
    method SliceSome(n: nat) returns (r: LinkBuffer, ghost from: seq<nat>)
      requires Valid() && 0 < n <= |Readable()|
      modifies this, refs
      ensures Valid() && Pending() == old(Pending())
      ensures fresh(r) && r.refs == refs && r.Valid() && r.Pending() == [] && r.flush == |r.nodes|
      ensures r.Readable() == old(Readable())[..n] && Readable() == old(Readable())[n..]
      ensures (|r.nodes| > 1 ==> read == 0) && (|r.nodes| <= 1 ==> |nodes| == old(|nodes|))
      ensures |ids| <= old(|ids|) && ids == old(ids)[old(|ids|) - |ids|..]
      ensures (forall i :: 0 <= i < |from| ==> from[i] in old(ids)) && r.ids == Upward(old(|refs.t.nodes|), |from|)
      ensures refs.steps == old(refs.steps) + Refers(from) + Releases(old(ids)[..old(|ids|) - |ids|])
      ensures Untouched(old(refs.t), refs.t, old(ids))
      ensures old(read) < old(|nodes|) == old(|ids|) && n <= |Unread(old(nodes[read]))| ==> from == [old(ids[read])] && ids == old(ids)
    {
      hide Flat, Shape, Unread, Allocated, Holding, Untouched, NewOnly, Upward, Refers, Releases, RefTable.Valid, Sharing;
      ghost var t, steps := refs.t, refs.steps;
      HoldingAll(ids, |nodes|, refs.t, flush < |nodes|);
      RecalLen(0 - n);
      var single := IsSingleNode(n);
      if single {
        r, from := SliceOne(n);
        SharingMeans(t, steps, refs.t, refs.steps, ids, r.ids, from);
        NoReleases(ids, steps + Refers(from));
      } else {
        r, from := SliceMany(n);
        SharingMeans(t, steps, refs.t, refs.steps, ids, r.ids, from);
        ghost var t' := refs.t;
        SharingHolds(t, steps, refs.t, refs.steps, ids, r.ids, from);
        Release();
        SharingKept(t, t', refs.t, old(ids), r.ids, |r.nodes|);
      }
    }

    /** Refer on the node at the read cursor. */
    method ShareHere(n: nat) returns (node: Node, id: nat)
      requires Shaped() && Held() && read < |nodes| && n <= |Unread(nodes[read])|
      modifies `nodes, refs
      ensures Shaped() && |nodes| == old(|nodes|) && Sound(node) && |Unread(node)| == n
      ensures old(Readable()) == Unread(node) + Readable() && Pending() == old(Pending())
      ensures |Unread(nodes[read])| == |Unread(old(nodes[read]))| - n && nodes[read + 1..] == old(nodes[read + 1..])
      ensures |ids| == |nodes| && ids[read] in ids && ids[read] < old(|refs.t.nodes|) && Root(old(refs.t), ids[read]) < old(|refs.t.nodes|)
      ensures Held() && refs.t == Referred(old(refs.t), ids[read]) && refs.steps == old(refs.steps) + [Step.Refer(ids[read])]
      ensures id == old(|refs.t.nodes|)
    {
      hide Flat, Shape, Unread, Holding, Counted, Run, Referred;
      NodeIn(nodes, read, flush, write, read);
      node := Shared(nodes[read], n);
      HoldingAt(ids, |nodes|, refs.t, flush < |nodes|, read);
      HeldCounts(refs.t, ids[read]);
      ReferredHolding(refs.t, ids[read], ids, |nodes|, flush < |nodes|);
      id := refs.Refer(ids[read]);
      var _ := TakeHere(n);
    }

    /** Slice within one node. */
    method SliceOne(n: nat) returns (r: LinkBuffer, ghost from: seq<nat>)
      requires Shaped() && Held() && read < |nodes| && 0 < n <= |Unread(nodes[read])|
      modifies `nodes, refs
      ensures Shaped() && Held() && |nodes| == old(|nodes|) && Pending() == old(Pending())
      ensures fresh(r) && r.refs == refs && r.Valid() && r.Pending() == [] && |r.nodes| == 1 && r.flush == 1
      ensures old(Readable()) == r.Readable() + Readable() && |r.Readable()| == n
      ensures Sharing(old(refs.t), old(refs.steps), refs.t, refs.steps, ids, r.ids, from)
      ensures |ids| == |nodes| && from == [ids[read]] && nodes[read + 1..] == old(nodes[read + 1..])
    {
      hide Flat, Shape, Unread, Holding, RefTable.Valid, Referred, Sharing;
      SharingStarts(refs.t, refs.steps, ids);
      ghost var t, steps := refs.t, refs.steps;
      var node, id := ShareHere(n);
      SharingOne(t, steps, t, steps, refs.t, ids, [], [], ids[read]);
      FlatOne(node);
      from := [] + [ids[read]];
      SharingHolds(t, steps, refs.t, refs.steps, ids, [] + [id], from);
      assert [] + [id] == [id];
      r := new LinkBuffer.Sliced(refs, [id], [node]);
    }

    /** Slice over several nodes: all of the first one, then the loop. */
    method SliceMany(n: nat) returns (r: LinkBuffer, ghost from: seq<nat>)
      requires Shaped() && Held() && read < |nodes| && 0 < |Unread(nodes[read])| < n <= |Readable()|
      modifies `nodes, `read, refs
      ensures Shaped() && Held() && |nodes| == old(|nodes|) && Pending() == old(Pending())
      ensures fresh(r) && r.refs == refs && r.Valid() && r.Pending() == [] && |r.nodes| > 1 && r.flush == |r.nodes|
      ensures r.Readable() == old(Readable())[..n] && Readable() == old(Readable())[n..]
      ensures Sharing(old(refs.t), old(refs.steps), refs.t, refs.steps, ids, r.ids, from)
    {
      hide Flat, Shape, Unread, Holding, RefTable.Valid, Referred, Sharing;
      SharingStarts(refs.t, refs.steps, ids);
      ghost var t, steps := refs.t, refs.steps;
      ReadRound(nodes, read, flush, write, n);
      var l := Left(nodes[read]);
      var first, id := ShareHere(l);
      SharingOne(t, steps, t, steps, refs.t, ids, [], [], ids[read]);
      from := [] + [ids[read]];
      NodePassed(nodes, read, flush, write);
      read := read + 1;
      FlatOne(first);
      var ns, newIds;
      ns, newIds, from := ShareAcross(n - l, [first], [] + [id], from, t, steps);
      SharingHolds(t, steps, refs.t, refs.steps, ids, newIds, from);
      r := new LinkBuffer.Sliced(refs, newIds, ns);
    }

    /** One round of the loop of Slice: like TakeRound, but what is taken is shared by a new node. */
    method ShareRound(ack: nat, ns: seq<Node>, newIds: seq<nat>, ghost from: seq<nat>, ghost t: Table, ghost steps: seq<Step>)
      returns (ns': seq<Node>, newIds': seq<nat>, ghost from': seq<nat>, l: nat)
      requires Shaped() && Held() && 0 < ack <= |Readable()| && (forall k :: 0 <= k < |ns| ==> Sound(ns[k]))
      requires |newIds| == |ns| && Sharing(t, steps, refs.t, refs.steps, ids, newIds, from)
      modifies `nodes, `read, refs
      ensures Shaped() && Held() && |nodes| == old(|nodes|) && Pending() == old(Pending()) && l <= ack
      ensures old(Readable())[l..] == Readable() && Flat(ns', Unread) == Flat(ns, Unread) + old(Readable())[..l]
      ensures l < ack ==> read == old(read) + 1
      ensures (forall k :: 0 <= k < |ns'| ==> Sound(ns'[k])) && |newIds'| == |ns'| >= |ns| && (l > 0 ==> |ns'| > |ns|)
      ensures Sharing(t, steps, refs.t, refs.steps, ids, newIds', from')
    {
      hide Flat, Shape, Unread, Allocated, Sound, Holding, RefTable.Valid, Referred, Sharing;
      ghost var all := Readable();
      ReadRound(nodes, read, flush, write, ack);
      ns', newIds', from', l := ns, newIds, from, Left(nodes[read]);
      var here := l;
      if l > ack {
        l := ack;
      }
      if l > 0 {
        ghost var t', steps' := refs.t, refs.steps;
        var node, id := ShareHere(l);
        SharingOne(t, steps, t', steps', refs.t, ids, newIds, from, ids[read]);
        FlatPush(ns, node, Unread);
        PartTaken(all, Unread(node), Readable());
        ns', newIds', from' := ns + [node], newIds + [id], from + [ids[read]];
      } else {
        PartTaken(all, [], all);
        assert Flat(ns, Unread) + [] == Flat(ns, Unread);
      }
      if here < ack {
        NodePassed(nodes, read, flush, write);
        read := read + 1;
      }
    }

    /** The loop of Slice over the nodes behind the first. */
    method ShareAcross(n: nat, start: seq<Node>, startIds: seq<nat>, ghost startFrom: seq<nat>, ghost t: Table, ghost steps: seq<Step>)
      returns (ns: seq<Node>, newIds: seq<nat>, ghost from: seq<nat>)
      requires Shaped() && Held() && 0 < n <= |Readable()| && (forall k :: 0 <= k < |start| ==> Sound(start[k]))
      requires |startIds| == |start| && Sharing(t, steps, refs.t, refs.steps, ids, startIds, startFrom)
      modifies `nodes, `read, refs
      ensures Shaped() && Held() && |nodes| == old(|nodes|) && Pending() == old(Pending())
      ensures (forall k :: 0 <= k < |ns| ==> Sound(ns[k])) && |newIds| == |ns| > |start|
      ensures Flat(ns, Unread) == Flat(start, Unread) + old(Readable())[..n] && Readable() == old(Readable())[n..]
      ensures Sharing(t, steps, refs.t, refs.steps, ids, newIds, from)
    {
      hide Flat, Shape, Unread, Allocated, Sound, Holding, RefTable.Valid, Sharing;
      ns, newIds, from := start, startIds, startFrom;
      var done := 0;
      ghost var all, first := Readable(), Flat(start, Unread);
      assert all[0..] == all && first + all[..0] == first;
      while done < n
        invariant Shaped() && Held() && |nodes| == old(|nodes|) && Pending() == old(Pending())
        invariant (forall k :: 0 <= k < |ns| ==> Sound(ns[k])) && |newIds| == |ns| >= |start| && (done > 0 ==> |ns| > |start|)
        invariant 0 <= done <= n && Readable() == all[done..] && Flat(ns, Unread) == first + all[..done]
        invariant Sharing(t, steps, refs.t, refs.steps, ids, newIds, from)
        decreases done < n, flush - read
      {
        var l;
        ns, newIds, from, l := ShareRound(n - done, ns, newIds, from, t, steps);
        NextPart(all, done, l, first);
        done := done + l;
      }
    }

    // ---- writing ----

    /** The node at the write cursor is one of ours and has room for n bytes. */
    ghost predicate Room(n: nat)
      reads this, refs
    {
      && write < |nodes| && write < |ids| && ids[write] < |refs.t.nodes|
      && refs.t.nodes[ids[write]].reusable && nodes[write].malloc + n <= |nodes[write].mem|
    }

    /** growth: leaves the write cursor at a node of our own with room for n bytes. */
    method Growth(n: nat)
      requires Shaped() && Held() && flush < |nodes| && n > 0
      modifies `ids, `nodes, `write, refs
      ensures Shaped() && Held() && flush <= write < |nodes| && Readable() == old(Readable()) && Pending() == old(Pending())
      ensures Room(n)
      ensures old(Room(n)) ==> nodes == old(nodes) && write == old(write) && ids == old(ids) && refs.steps == old(refs.steps) && refs.t == old(refs.t)
      ensures Grown(old(refs.t), old(refs.steps), refs.t, refs.steps, old(ids), ids, true)
    {
      hide Flat, Shape, Allocated, Unread, Holding, RefTable.Valid, Grown, Created;
      WriteIn(nodes, read, flush, write);
      HoldingAll(ids, |nodes|, refs.t, true);
      GrownNot(refs.t, refs.steps, ids, true);
      while !refs.t.nodes[ids[write]].reusable || |nodes[write].mem| - nodes[write].malloc < n
        invariant Shaped() && Held() && flush <= write < |nodes| && nodes == old(nodes) && |ids| == |nodes|
        invariant ids == old(ids) && refs.t == old(refs.t) && refs.steps == old(refs.steps)
        invariant old(Room(n)) ==> write == old(write)
        decreases |nodes| - write
      {
        if write + 1 == |nodes| {
          var node := NewNode(n);
          NewLast(nodes, read, flush, write, node);
          assert nodes[..write + 1] == nodes && ids[..write + 1] == ids;
          NothingAllocated(node);
          CreatedHolding(refs.t, true, ids, |nodes|, true, |nodes|);
          GrownBy(refs.t, refs.steps, true, ids, |ids|);
          var id := refs.New(true);
          CreatedCount(old(refs.t), true);
          ids, nodes, write := ids + [id], nodes + [node], write + 1;
          return;
        }
        WriteMovesOn(nodes, read, flush, write);
        write := write + 1;
      }
    }

    /** linkBufferNode.Malloc on the node at the write cursor, and what the caller puts there before Flush. */
    method FillHere(data: seq<byte>)
      requires Shaped() && flush <= write < |nodes| && nodes[write].malloc + |data| <= |nodes[write].mem|
      modifies `nodes
      ensures Shaped() && flush < |nodes| && Readable() == old(Readable()) && Pending() == old(Pending()) + data
      ensures nodes == old(nodes)[write := Filled(old(nodes[write]), data)]
    {
      hide Flat, Shape;
      FillLast(nodes, read, flush, write, data);
      nodes := nodes[write := Filled(nodes[write], data)];
    }

    /** Malloc(n), with what the caller writes into the n bytes. */
    method Malloc(data: seq<byte>)
      requires Valid() && flush < |nodes|
      modifies `ids, `nodes, `write, `mallocSize, refs
      ensures Valid() && flush < |nodes| && Readable() == old(Readable()) && Pending() == old(Pending()) + data
      ensures Grown(old(refs.t), old(refs.steps), refs.t, refs.steps, old(ids), ids, true)
      ensures data != [] && old(Room(|data|)) ==>
                && ids == old(ids) && write == old(write) && refs.t == old(refs.t)
                && nodes == old(nodes)[write := Filled(old(nodes[write]), data)]
    {
      hide Flat, Shape, Holding, RefTable.Valid, Grown, Filled, Unread, Allocated;
      if |data| == 0 {
        GrownNot(refs.t, refs.steps, ids, true);
        assert Pending() + data == Pending();
        return;
      }
      mallocSize := mallocSize + |data|;
      Growth(|data|);
      FillHere(data);
    }

    /** WriteBinary: a long block becomes a node of its own, without a copy. */
    method WriteBinary(p: seq<byte>) returns (n: nat)
      requires Valid() && flush < |nodes|
      modifies `ids, `nodes, `write, `mallocSize, refs
      ensures Valid() && flush < |nodes| && n == |p|
      ensures Readable() == old(Readable()) && Pending() == old(Pending()) + p
      ensures Grown(old(refs.t), old(refs.steps), refs.t, refs.steps, old(ids), ids, n <= INPLACE_THRESHOLD)
      ensures n > 4096 ==> refs.steps == old(refs.steps) + [Create(false)] && write < |nodes| && nodes[write].mem == p
    {
      hide Flat, Shape, Holding, Counted, Run, Grown, Created;
      n := |p|;
      if n == 0 {
        GrownNot(refs.t, refs.steps, ids, true);
        assert Pending() + p == Pending();
        return;
      }
      mallocSize := mallocSize + n;
      if n > INPLACE_THRESHOLD {
        WriteIn(nodes, read, flush, write);
        var node := Node(p, 0, 0, n);
        assert Allocated(node) == p;
        AddLast(node, false);
        return;
      }
      Growth(n);
      FillHere(p);
    }

    /** A new node behind the write cursor; what hung there is dropped. */
    method AddLast(node: Node, ours: bool)
      requires Shaped() && Held() && flush <= write < |nodes| && node.off == node.len == 0 && node.malloc <= |node.mem|
      modifies `ids, `nodes, `write, refs
      ensures Shaped() && Held() && flush < write < |nodes| && Readable() == old(Readable())
      ensures Pending() == old(Pending()) + Allocated(node)
      ensures Grown(old(refs.t), old(refs.steps), refs.t, refs.steps, old(ids), ids, ours)
      ensures nodes == old(nodes)[..write] + [node] && |ids| == |nodes| && write == old(write) + 1 && old(|ids|) == old(|nodes|)
      ensures ids == old(ids)[..write] + [old(|refs.t.nodes|)] && refs.steps == old(refs.steps) + [Create(ours)]
    {
      hide Flat, Shape, Holding, RefTable.Valid, Grown, Created, Allocated, Unread;
      NewLast(nodes, read, flush, write, node);
      HoldingLength(ids, |nodes|, refs.t, true);
      CreatedHolding(refs.t, ours, ids, |nodes|, true, write + 1);
      GrownBy(refs.t, refs.steps, ours, ids, write + 1);
      var id := refs.New(ours);
      ids, nodes, write := ids[..write + 1] + [id], nodes[..write + 1] + [node], write + 1;
    }

    /** The first part of Flush: a tail that is too large for a page gets an empty node behind it. */
    method NewTail()
      requires Shaped() && Held() && flush < |nodes|
      modifies `ids, `nodes, `write, refs
      ensures Shaped() && Held() && flush <= write < |nodes| && Readable() == old(Readable()) && Pending() == old(Pending())
      ensures Grown(old(refs.t), old(refs.steps), refs.t, refs.steps, old(ids), ids, false)
      ensures old(|nodes|) == old(|ids|) && |ids| == |nodes| && ids[flush] == old(ids[flush]) && nodes[flush] == old(nodes[flush])
      ensures |nodes[write].mem| <= PAGE_SIZE && (old(write == |nodes| - 1) ==> old(ids) <= ids)
    {
      hide Flat, Shape, Holding, RefTable.Valid, Grown;
      WriteIn(nodes, read, flush, write);
      HoldingLength(ids, |nodes|, refs.t, true);
      GrownNot(refs.t, refs.steps, ids, false);
      if |nodes[write].mem| > PAGE_SIZE {
        var node := NewNode(0);
        NothingAllocated(node);
        AddLast(node, false);
      }
    }

    /** Flush: what was pending can be read. */
    method Flush()
      requires Valid() && flush < |nodes|
      modifies `ids, `nodes, `flush, `write, `length, `mallocSize, `cachePeek, refs
      ensures Valid() && flush < |nodes| && Readable() == old(Readable()) + old(Pending()) && Pending() == []
      ensures Grown(old(refs.t), old(refs.steps), refs.t, refs.steps, old(ids), ids, false)
      ensures old(flush < |nodes| == |ids|) && old(flush) < |nodes| == |ids|
      ensures ids[old(flush)] == old(ids[flush]) && nodes[old(flush)] == Flushed(old(nodes[flush]))
      ensures old(write == |nodes| - 1) ==> old(ids) <= ids
    {
      hide Flat, Shape, Holding, RefTable.Valid, Grown, Flushed, FlushedTo, Unread, Allocated;
      mallocSize := 0;
      NewTail();
      var n := Publish();
      RecalLen(n);
    }

    /** The second part of Flush: every node up to the write cursor is flushed. */
    method Publish() returns (n: nat)
      requires Shaped() && flush <= write < |nodes|
      modifies `nodes, `flush
      ensures Shaped() && flush == write && |nodes| == old(|nodes|) && n == old(|Pending()|)
      ensures Readable() == old(Readable()) + old(Pending()) && Pending() == []
      ensures nodes[old(flush)] == Flushed(old(nodes[flush]))
    {
      hide Flat, Shape, Flushed, FlushedTo, Unread, Allocated;
      ghost var ns := nodes;
      n := FlushNodes();
      FlushShape(ns, nodes, read, flush, write);
      FlushBytes(ns, nodes, read, flush, write);
      FlushedAt(ns, nodes, flush, write + 1);
      ShapeOrder(nodes, read, write, write);
      flush := write;
    }

    /** The loop of Flush. */
    method FlushNodes() returns (n: nat)
      requires Shaped() && flush <= write < |nodes|
      modifies `nodes
      ensures FlushedTo(old(nodes), nodes, flush, write + 1) && n == |old(Pending())|
    {
      hide Flat, Shape, Allocated;
      n := 0;
      ghost var ns := nodes;
      assert ns[flush..flush] == [];
      FlatEmpty();
      var node := flush;
      while node != write + 1
        invariant flush <= node <= write + 1 && FlushedTo(ns, nodes, flush, node)
        invariant n == |Flat(ns[flush..node], Allocated)|
        decreases write + 1 - node
      {
        AllocatedIn(ns, read, flush, write, node);
        assert ns[flush..node + 1] == ns[flush..node] + [ns[node]];
        FlatPush(ns[flush..node], ns[node], Allocated);
        var delta := nodes[node].malloc - nodes[node].len;
        if delta > 0 {
          n := n + delta;
          nodes := nodes[node := nodes[node].(len := nodes[node].malloc)];
        }
        node := node + 1;
      }
      NothingBehindWrite(ns, read, flush, write, flush, Allocated);
    }

    /** MallocAck(n) keeps the first n pending bytes. With n == 0 it does not look at the flush node: what is pending
        there stays allocated, behind the back of mallocSize, and Flush would publish it. Not for a batch in which
        WriteDirect split a node: clearing the half behind the write cursor lets later writes reach the memory of the
        first half, and nodes here hold values. */
    method MallocAck(n: int) returns (ok: bool)
      requires Valid() && flush < |nodes| && n <= mallocSize
      modifies `nodes, `write, `mallocSize
      ensures ok <==> n >= 0
      ensures !ok ==> Valid() && Pending() == old(Pending())
      ensures Shaped() && Held() && flush < |nodes| && Readable() == old(Readable()) && (ok ==> mallocSize == n)
      ensures n > 0 ==> Valid() && Pending() == old(Pending())[..n]
      ensures n == 0 ==> Pending() == Allocated(old(nodes[flush]))
      ensures n == 0 ==> (Valid() <==> old(nodes[flush].malloc == nodes[flush].len))
    {
      hide Flat, Shape, Holding, RefTable.Valid;
      if n < 0 {
        return false;
      }
      ok := true;
      ghost var ns, pending := nodes, Pending();
      mallocSize := n;
      var w, malloc := AckPoint(n);
      ghost var was := write;
      write := w;
      nodes := nodes[w := nodes[w].(malloc := malloc)];
      ClearBehind(ns, malloc);
      AckChain(ns, nodes, read, flush, was, w, malloc);
      AllocatedIn(ns, read, flush, was, flush);
      if n == 0 {
        FlatNothing(ns, flush);
        assert Allocated(ns[w])[..malloc - ns[w].len] == Allocated(ns[w]);
      }
    }

    /** The first loop of MallocAck: where the n-th pending byte lies, and what its node keeps. */
    method AckPoint(n: nat) returns (w: nat, malloc: nat)
      requires Shaped() && flush < |nodes| && n <= |Pending()|
      ensures flush <= w < |nodes| && nodes[w].len <= malloc <= nodes[w].malloc
      ensures n == 0 ==> w == flush && malloc == nodes[w].malloc
      ensures n > 0 ==> Flat(nodes[flush..w], Allocated) + Allocated(nodes[w])[..malloc - nodes[w].len] == Pending()[..n]
    {
      hide Flat, Shape, Allocated;
      w := flush;
      AllocatedIn(nodes, read, flush, write, w);
      malloc := nodes[w].malloc;
      var ack := n;
      FlatNothing(nodes, flush);
      while ack > 0
        invariant flush <= w < |nodes| && 0 <= ack <= n && (n > 0 ==> ack > 0)
        invariant n == 0 ==> w == flush && malloc == nodes[w].malloc
        invariant |Flat(nodes[flush..w], Allocated)| == n - ack
        decreases |nodes| - w
      {
        FlatSplit(nodes, flush, w, Allocated);
        AllocatedIn(nodes, read, flush, write, w);
        var l := nodes[w].malloc - nodes[w].len;
        if l >= ack {
          malloc := ack + nodes[w].len;
          AckPrefix(Flat(nodes[flush..w], Allocated), Allocated(nodes[w]), Flat(nodes[w + 1..], Allocated), ack);
          break;
        }
        FlatNext(nodes, flush, w);
        w := w + 1;
        ack := ack - l;
      }
    }

    /** The second loop of MallocAck. */
    method ClearBehind(ghost ns: seq<Node>, ghost malloc: nat)
      requires write < |nodes| == |ns| && nodes == ns[write := ns[write].(malloc := malloc)]
      modifies `nodes
      ensures AckedAt(ns, nodes, write, malloc)
    {
      var k := write + 1;
      while k < |nodes|
        invariant write < k <= |nodes| == |ns|
        invariant forall j :: 0 <= j < |ns| ==> nodes[j] == if j < write || j >= k then ns[j]
                                                            else if j == write then ns[j].(malloc := malloc)
                                                            else ns[j].(off := 0, malloc := 0, len := 0)
      {
        nodes := nodes[k := nodes[k].(off := 0, malloc := 0, len := 0)];
        k := k + 1;
      }
    }

    /** WriteDirect: extra goes in remain bytes before the end of what is pending, without a copy. Where that is inside
        what a node has allocated, the node is split: both halves point into the same memory. */
    method WriteDirect(extra: seq<byte>, remain: int) returns (ghost origin: nat)
      requires Valid() && flush < |nodes| && remain <= mallocSize
      modifies `ids, `nodes, `write, `mallocSize, refs
      ensures Valid() && flush < |nodes| && Readable() == old(Readable())
      ensures extra == [] || remain < 0 ==>
                Pending() == old(Pending()) && ids == old(ids) && nodes == old(nodes) && refs.steps == old(refs.steps)
      ensures extra != [] && remain >= 0 ==>
                var at := old(|Pending()|) - remain;
                Pending() == old(Pending())[..at] + extra + old(Pending())[at..]
      ensures extra != [] && remain >= 0 ==>
                && flush <= origin < old(|nodes|) == old(|ids|) && write == |nodes| - 1
                && Untouched(old(refs.t), refs.t, old(ids)) && NewOnly(old(ids), ids, old(|refs.t.nodes|))
      ensures extra != [] && remain == 0 ==>
                && refs.steps == old(refs.steps) + [Create(false)]
                && ids == old(ids)[..origin + 1] + [old(|refs.t.nodes|)] + old(ids)[origin + 1..]
      ensures extra != [] && remain > 0 ==>
                && refs.steps == old(refs.steps) + [Create(false), Step.Split(old(ids)[origin])]
                && ids == old(ids)[..origin + 1] + [old(|refs.t.nodes|), old(|refs.t.nodes|) + 1] + old(ids)[origin + 1..]
                && |nodes| == old(|nodes|) + 2 && nodes[origin].len == old(nodes)[origin].len && nodes[origin].off == old(nodes)[origin].off
                && nodes[origin].mem == old(nodes)[origin].mem
                && (origin == flush ==> nodes[origin].malloc - nodes[origin].len == old(|Pending()|) - remain)
    {
      hide Flat, Shape, Allocated, Unread, Sound, Holding, RefTable.Valid, Untouched, NewOnly, Created, SplitOff;
      origin := 0;
      if |extra| == 0 || remain < 0 {
        return;
      }
      var o, malloc := DirectPoint(mallocSize - remain);
      origin := o;
      FlatNothing(nodes, flush);
      if remain > 0 {
        InsertInside(o, malloc, extra);
      } else {
        InsertBehind(o, malloc, extra);
      }
      mallocSize := mallocSize + |extra|;
    }

    /** Node o is split where malloc of its allocated bytes end, and extra goes between the halves. */
    method InsertInside(o: nat, malloc: nat, extra: seq<byte>)
      requires Shaped() && Held() && flush <= o < |nodes| && nodes[o].len + malloc <= nodes[o].malloc
      modifies `ids, `nodes, `write, refs
      ensures Shaped() && Held() && flush < |nodes| && Readable() == old(Readable()) && write == |nodes| - 1
      ensures var k := |Flat(old(nodes)[flush..o], Allocated)| + malloc;
              k <= |old(Pending())| && Pending() == old(Pending())[..k] + extra + old(Pending())[k..]
      ensures old(|ids|) == old(|nodes|) && |nodes| == old(|nodes|) + 2
      ensures nodes[o] == old(nodes[o]).(malloc := malloc + old(nodes[o].len))
      ensures refs.steps == old(refs.steps) + [Create(false), Step.Split(old(ids)[o])]
      ensures ids == old(ids)[..o + 1] + [old(|refs.t.nodes|), old(|refs.t.nodes|) + 1] + old(ids)[o + 1..]
      ensures Untouched(old(refs.t), refs.t, old(ids)) && NewOnly(old(ids), ids, old(|refs.t.nodes|))
    {
      hide Flat, Shape, Allocated, Unread, Sound, Holding, RefTable.Valid, Untouched, NewOnly, Created, SplitOff;
      DirectNodes(nodes, read, flush, write, o, malloc, extra);
      HoldingLength(ids, |nodes|, refs.t, true);
      var node := nodes[o];
      var at := malloc + node.len;
      var left := node.(malloc := at);
      var data := Node(extra, 0, 0, |extra|);
      var right := Node(node.mem, at, at, node.malloc);
      SplitSeq(nodes, o, left, data, right);
      AddSplit(o);
      nodes := nodes[..o] + [left, data, right] + nodes[o + 1..];
      write := |nodes| - 1;
    }

    /** All that is allocated lies in the nodes up to o, and extra goes behind node o. */
    method InsertBehind(o: nat, malloc: nat, extra: seq<byte>)
      requires Shaped() && Held() && flush <= o < |nodes| && nodes[o].len + malloc <= nodes[o].malloc
      requires |Flat(nodes[flush..o], Allocated)| + malloc == |Pending()|
      modifies `ids, `nodes, `write, refs
      ensures Shaped() && Held() && flush < |nodes| && Readable() == old(Readable()) && write == |nodes| - 1
      ensures Pending() == old(Pending()) + extra && old(|ids|) == old(|nodes|)
      ensures refs.steps == old(refs.steps) + [Create(false)]
      ensures ids == old(ids)[..o + 1] + [old(|refs.t.nodes|)] + old(ids)[o + 1..]
      ensures Untouched(old(refs.t), refs.t, old(ids)) && NewOnly(old(ids), ids, old(|refs.t.nodes|))
    {
      hide Flat, Shape, Allocated, Unread, Sound, Holding, RefTable.Valid, Untouched, NewOnly, Created;
      DirectNodes(nodes, read, flush, write, o, malloc, extra);
      HoldingLength(ids, |nodes|, refs.t, true);
      AddData(o);
      nodes := nodes[..o] + [nodes[o], Node(extra, 0, 0, |extra|)] + nodes[o + 1..];
      write := |nodes| - 1;
    }

    /** The node over the caller's block, behind node o. */
    method AddData(o: nat)
      requires Held() && o < |nodes| && flush < |nodes|
      modifies `ids, refs
      ensures refs.Valid() && Holding(ids, |nodes| + 1, refs.t, true) && old(|ids|) == |nodes|
      ensures refs.steps == old(refs.steps) + [Create(false)] && refs.t == Created(old(refs.t), false)
      ensures ids == old(ids)[..o + 1] + [old(|refs.t.nodes|)] + old(ids)[o + 1..]
      ensures Untouched(old(refs.t), refs.t, old(ids)) && NewOnly(old(ids), ids, old(|refs.t.nodes|))
    {
      hide Counted, Run;
      ghost var t := refs.t;
      HoldingLength(ids, |nodes|, refs.t, true);
      CreatedHolding(refs.t, false, ids, |nodes|, true, 0);
      NotIn(ids, |nodes|, refs.t);
      var id := refs.New(false);
      Inserted(ids, o, id, refs.t);
      ids := ids[..o + 1] + [id] + ids[o + 1..];
    }

    /** The node over the caller's block and the second half of node o, behind node o. */
    method AddSplit(o: nat)
      requires Held() && o < |nodes| && flush < |nodes|
      modifies `ids, refs
      ensures refs.Valid() && Holding(ids, |nodes| + 2, refs.t, true) && old(|ids|) == |nodes|
      ensures refs.steps == old(refs.steps) + [Create(false), Step.Split(old(ids)[o])]
      ensures ids == old(ids)[..o + 1] + [old(|refs.t.nodes|), old(|refs.t.nodes|) + 1] + old(ids)[o + 1..]
      ensures Untouched(old(refs.t), refs.t, old(ids)) && NewOnly(old(ids), ids, old(|refs.t.nodes|))
    {
      hide Counted, Run, Holding, Untouched, Created, SplitOff, NewOnly;
      ghost var t, was := refs.t, ids;
      HoldingLength(ids, |nodes|, refs.t, true);
      var k := ids[o];
      AddData(o);
      ghost var t1 := refs.t;
      assert ids[o] == k;
      HoldingAt(ids, |nodes| + 1, t1, true, o);
      SplitHolding(t1, ids, |nodes| + 1, o);
      SplitLast(t1, k);
      NotIn(ids, |nodes| + 1, t1);
      CreatedCount(t, false);
      var id := refs.Split(k);
      UntouchedNarrow(t, t1, refs.t, was, ids);
      Inserted(ids, o + 1, id, refs.t);
      SplitIds(was, o, |t.nodes|);
      ids := ids[..o + 2] + [id] + ids[o + 2..];
    }

    /** The loop of WriteDirect: the node and the place in it that `target` pending bytes come before. */
    method DirectPoint(target: nat) returns (origin: nat, malloc: nat)
      requires Shaped() && flush < |nodes| && target <= |Pending()|
      ensures flush <= origin < |nodes| && nodes[origin].len + malloc <= nodes[origin].malloc
      ensures |Flat(nodes[flush..origin], Allocated)| + malloc == target
    {
      hide Flat, Shape, Allocated;
      origin, malloc := flush, target;
      AllocatedIn(nodes, read, flush, write, origin);
      FlatNothing(nodes, flush);
      while nodes[origin].malloc - nodes[origin].len < malloc
        invariant flush <= origin < |nodes|
        invariant |Flat(nodes[flush..origin], Allocated)| + malloc == target
        decreases |nodes| - origin
      {
        FlatSplit(nodes, flush, origin, Allocated);
        AllocatedIn(nodes, read, flush, write, origin);
        FlatNext(nodes, flush, origin);
        malloc := malloc - (nodes[origin].malloc - nodes[origin].len);
        origin := origin + 1;
      }
    }
  }

  lemma FlatNothing(ns: seq<Node>, from: nat)
    requires from <= |ns|
    ensures Flat(ns[from..from], Allocated) == []
  {
    assert ns[from..from] == [];
  }

  /** One more node is taken into account; if there is more to come there is a next one. */
  lemma FlatNext(ns: seq<Node>, from: nat, k: nat)
    requires from <= k < |ns|
    ensures Flat(ns[from..k + 1], Allocated) == Flat(ns[from..k], Allocated) + Allocated(ns[k])
    ensures Flat(ns[k + 1..], Allocated) != [] ==> k + 1 < |ns|
  {
    hide Allocated;
    assert ns[from..k + 1] == ns[from..k] + [ns[k]];
    FlatPush(ns[from..k], ns[k], Allocated);
  }

  lemma AckPrefix(a: seq<byte>, b: seq<byte>, c: seq<byte>, n: nat)
    requires n <= |b|
    ensures (a + b + c)[..|a| + n] == a + b[..n] && (a + b + c)[|a| + n..] == b[n..] + c
  {
  }

  /** The two chains WriteDirect can build. */
  lemma DirectNodes(ns: seq<Node>, read: nat, flush: nat, write: nat, o: nat, m: nat, extra: seq<byte>)
    requires Shape(ns, read, flush, write) && flush <= o < |ns| && ns[o].len + m <= ns[o].malloc
    ensures var node := ns[o];
            var at := m + node.len;
            var data := Node(extra, 0, 0, |extra|);
            var left := node.(malloc := at);
            var right := Node(node.mem, at, at, node.malloc);
            var split := ns[..o] + [left, data, right] + ns[o + 1..];
            var after := ns[..o] + [node, data] + ns[o + 1..];
            var pending := Flat(ns[flush..], Allocated);
            var k := |Flat(ns[flush..o], Allocated)| + m;
            && Shape(split, read, flush, |split| - 1) && Shape(after, read, flush, |after| - 1)
            && Flat(split[read..], Unread) == Flat(after[read..], Unread) == Flat(ns[read..], Unread)
            && k <= |pending| && Flat(split[flush..], Allocated) == pending[..k] + extra + pending[k..]
            && (k == |pending| ==> Flat(after[flush..], Allocated) == pending + extra)
  {
    hide Flat, Shape, Allocated, Unread;
    var node := ns[o];
    var at := m + node.len;
    var data := Node(extra, 0, 0, |extra|);
    var left := node.(malloc := at);
    var right := Node(node.mem, at, at, node.malloc);
    NodeIn(ns, read, flush, write, o);
    AllocatedIn(ns, read, flush, write, o);
    SplitNode(node, m, extra);
    Insert(ns, read, flush, write, o, [left, data, right]);
    Insert(ns, read, flush, write, o, [node, data]);
    FlatSplit(ns, flush, o, Allocated);
    FlatFew(left, data, right);
    FlatFew(node, data, right);
    Between(Flat(ns[flush..o], Allocated), Allocated(node), Flat(ns[o + 1..], Allocated), m, extra);
  }

  /** A block put m bytes into b, which stands between a and c. */
  lemma Between(a: seq<byte>, b: seq<byte>, c: seq<byte>, m: nat, extra: seq<byte>)
    requires m <= |b|
    ensures var all, k := a + b + c, |a| + m;
            && a + (b[..m] + extra + b[m..]) + c == all[..k] + extra + all[k..]
            && (k == |all| ==> a + (b + extra) + c == all + extra)
  {
    AckPrefix(a, b, c, m);
    assert a + (b[..m] + extra + b[m..]) + c == (a + b[..m]) + extra + (b[m..] + c);
    if |a| + m == |a + b + c| {
      assert c == [] && a + (b + extra) + [] == a + b + [] + extra;
    }
  }

  lemma SplitNode(node: Node, m: nat, extra: seq<byte>)
    requires Sound(node) && node.len + m <= node.malloc <= |node.mem|
    ensures var at := m + node.len;
            var left := node.(malloc := at);
            var right := Node(node.mem, at, at, node.malloc);
            var data := Node(extra, 0, 0, |extra|);
            && Sound(left) && Sound(right) && Sound(data) && Unread(left) == Unread(node)
            && Allocated(left) == Allocated(node)[..m] && Allocated(right) == Allocated(node)[m..]
            && Allocated(data) == extra
  {
    SliceParts(node.mem, node.len, m, node.malloc);
  }

  lemma SliceParts(mem: seq<byte>, i: nat, m: nat, j: nat)
    requires i + m <= j <= |mem|
    ensures mem[i..j][..m] == mem[i..i + m] && mem[i..j][m..] == mem[i + m..j]
  {
    var s := mem[i..j];
    assert forall k :: 0 <= k < |s| ==> s[k] == mem[i + k];
  }

  lemma SplitSeq(ns: seq<Node>, o: nat, left: Node, data: Node, right: Node)
    requires o < |ns|
    ensures var ns' := ns[..o] + [left, data, right] + ns[o + 1..];
            |ns'| == |ns| + 2 && ns'[..o] == ns[..o] && ns'[o] == left
  {
  }

  lemma FlatFew(a: Node, b: Node, c: Node)
    ensures Flat([a, b, c], Allocated) == Allocated(a) + Allocated(b) + Allocated(c)
    ensures Flat([a, b], Allocated) == Allocated(a) + Allocated(b)
  {
    hide Flat, Allocated;
    FlatPush([], a, Allocated);
    FlatPush([a], b, Allocated);
    FlatPush([a, b], c, Allocated);
    FlatEmpty();
    assert [] + [a] == [a] && [a] + [b] == [a, b] && [a, b] + [c] == [a, b, c];
    assert [] + Allocated(a) == Allocated(a);
  }

  /** newLinkBufferNode: memory of our own for size bytes or more, or none at all. */
  method NewNode(size: int) returns (node: Node)
    ensures node.off == node.len == node.malloc == 0 && size <= |node.mem| && (if size <= 0 then node.mem == [] else |node.mem| >= 4096)
  {
    if size <= 0 {
      return Node([], 0, 0, 0);
    }
    var need := if size < NODE_CAP then NODE_CAP else size;
    var room :| room >= need;
    return Node(seq(room, _ => 0), 0, 0, 0);
  }

  lemma NothingAllocated(node: Node)
    requires node.off == node.len == node.malloc == 0
    ensures Allocated(node) == [] && Unread(node) == [] && forall p: seq<byte> :: p + Allocated(node) == p
  {
  }

  lemma FlatEmpty()
    ensures Flat([], Unread) == [] && Flat([], Allocated) == []
  {
  }

  lemma FlatOne(node: Node)
    ensures Flat([node], Unread) == Unread(node)
  {
    assert [node][1..] == [] && Unread(node) + [] == Unread(node);
  }

  lemma WriteIn(ns: seq<Node>, read: nat, flush: nat, write: nat)
    requires Shape(ns, read, flush, write) && flush < |ns|
    ensures flush <= write < |ns|
  {
  }

  lemma AllocatedIn(ns: seq<Node>, read: nat, flush: nat, write: nat, k: nat)
    requires Shape(ns, read, flush, write) && flush <= k < |ns|
    ensures ns[k].len <= ns[k].malloc <= |ns[k].mem| && |Allocated(ns[k])| == ns[k].malloc - ns[k].len
    ensures Allocated(ns[k]) == ns[k].mem[ns[k].len..ns[k].malloc]
  {
  }

  /** No c from `from` up to `to`. */
  ghost predicate Without(all: seq<byte>, c: byte, from: nat, to: nat)
  {
    to <= |all| && forall k :: from <= k < to ==> all[k] != c
  }

  /** i is the first c at or behind skip, or -1 if there is none. */
  ghost predicate FoundAt(all: seq<byte>, c: byte, skip: nat, i: int)
  {
    if i < 0 then i == -1 && Without(all, c, skip, |all|)
    else skip <= i < |all| && all[i] == c && Without(all, c, skip, i)
  }

  lemma NothingToSearch(all: seq<byte>, c: byte, skip: nat)
    requires skip >= |all|
    ensures FoundAt(all, c, skip, -1)
  {
  }

  lemma NothingSearched(all: seq<byte>, c: byte, skip: nat)
    ensures Without(all, c, skip, 0)
    ensures Without(all, c, skip, |all|) ==> FoundAt(all, c, skip, -1)
  {
  }

  lemma SearchSkips(all: seq<byte>, c: byte, skip: nat, done: nat, n: nat)
    requires Without(all, c, skip, done) && done + n <= |all| && (n == 0 || skip >= done + n)
    ensures Without(all, c, skip, done + n)
  {
  }

  lemma SearchHere(all: seq<byte>, c: byte, skip: nat, done: nat, here: seq<byte>, toSkip: nat, n: nat)
    requires Without(all, c, skip, done) && done + |here| <= |all| && all[done..done + |here|] == here
    requires toSkip < n <= |here| && toSkip == if skip > done then skip - done else 0
    ensures var i := IndexByte(here[toSkip..n], c);
            if i >= 0 then FoundAt(all, c, skip, done + toSkip + i) else Without(all, c, skip, done + n)
  {
    hide IndexByte;
    var s := here[toSkip..n];
    var i := IndexByte(s, c);
    forall k | skip <= k < (if i >= 0 then done + toSkip + i else done + n)
      ensures all[k] != c
    {
      if k >= done {
        var j := k - done - toSkip;
        assert 0 <= j < |s| && s[j] != c;
        assert all[k] == all[done..done + |here|][k - done] == here[k - done] == s[j];
      }
    }
    if i >= 0 {
      assert all[done + toSkip + i] == all[done..done + |here|][toSkip + i] == here[toSkip + i] == s[i];
    }
  }

  lemma Regroup(p: seq<byte>, q: seq<byte>, r: seq<byte>)
    ensures p + (q + r) == (p + q) + r
    ensures (p + q + r)[..|p + q|] == p + q && (p + q + r)[|p + q|..] == r
  {
  }

  lemma PartTaken(all: seq<byte>, q: seq<byte>, rest: seq<byte>)
    requires all == q + rest
    ensures all[..|q|] == q && all[|q|..] == rest
  {
  }

  lemma NextPart(all: seq<byte>, done: nat, l: nat, first: seq<byte>)
    requires done + l <= |all|
    ensures all[done..][l..] == all[done + l..] && first + all[..done] + all[done..][..l] == first + all[..done + l]
  {
  }

  lemma ShapeOrder(ns: seq<Node>, read: nat, flush: nat, write: nat)
    requires Shape(ns, read, flush, write)
    ensures read <= flush <= write <= |ns|
  {
  }

  lemma NextShape(ns: seq<Node>, read: nat, flush: nat, write: nat)
    requires Shape(ns, read, flush, write) && read < flush
    ensures Shape(ns, read + 1, flush, write)
  {
  }

  lemma PeekHere(nd: Node, n: nat, rest: seq<byte>)
    requires Sound(nd) && n <= Left(nd)
    ensures nd.mem[nd.off..nd.off + n] == (Unread(nd) + rest)[..n]
  {
    assert nd.mem[nd.off..nd.len][..n] == nd.mem[nd.off..nd.off + n];
    assert (Unread(nd) + rest)[..n] == Unread(nd)[..n];
  }

  lemma PeekRound(all: seq<byte>, scanned: nat, here: seq<byte>, rest: seq<byte>)
    requires scanned <= |all| && all[scanned..] == here + rest
    ensures scanned + |here| <= |all| && all[scanned + |here|..] == rest && all[scanned..scanned + |here|] == here
  {
    assert all[scanned..][|here|..] == rest;
  }

  lemma PeekGrows(all: seq<byte>, scanned: nat, here: seq<byte>, p: seq<byte>, n: nat)
    requires p <= all && scanned <= |p| && |p| - scanned + n <= |here| && scanned + |here| <= |all|
    requires all[scanned..scanned + |here|] == here
    ensures p + here[|p| - scanned..|p| - scanned + n] == all[..|p| + n]
  {
    var i := |p| - scanned;
    assert forall k :: 0 <= k < |here| ==> here[k] == all[scanned + k];
    assert here[i..i + n] == all[|p|..|p| + n];
  }

  lemma NodePassed(ns: seq<Node>, read: nat, flush: nat, write: nat)
    requires Shape(ns, read, flush, write) && read < flush && read < |ns| && Unread(ns[read]) == []
    ensures Shape(ns, read + 1, flush, write) && Flat(ns[read..], Unread) == Flat(ns[read + 1..], Unread)
  {
    FlatAt(ns, read, Unread);
  }
}
