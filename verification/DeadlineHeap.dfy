/** The cleaner's heap of deadlines: four children to a node, kept in an array (siftUp, siftDown). */
module DeadlineHeap {
  import opened Ledger

  /** CleanItem: whom to clean, and when. */
  datatype Item = Item(client: nat, when: int)

  function Parent(j: nat): (p: nat)
    requires j > 0
    ensures p < j && 4 * p + 1 <= j <= 4 * p + 4
  {
    (j - 1) / 4
  }

  /** No earlier than its parent. */
  predicate Below(h: seq<Item>, j: nat)
    requires 0 < j < |h|
  {
    h[Parent(j)].when <= h[j].when
  }

  ghost predicate Heap(h: seq<Item>)
  {
    forall j {:trigger Below(h, j)} :: 0 < j < |h| ==> Below(h, j)
  }

  /** The root is the earliest. */
  lemma {:induction false} RootIsFirst(h: seq<Item>, k: nat)
    requires Heap(h) && k < |h|
    ensures h[0].when <= h[k].when
    decreases k
  {
    if k > 0 {
      assert Below(h, k);
      RootIsFirst(h, Parent(k));
    }
  }

  function Swap(h: seq<Item>, i: nat, j: nat): (r: seq<Item>)
    requires i < |h| && j < |h|
    ensures |r| == |h| && r[i] == h[j] && r[j] == h[i]
    ensures forall k :: 0 <= k < |h| && k != i && k != j ==> r[k] == h[k]
  {
    h[i := h[j]][j := h[i]]
  }

  lemma SwapPermutes(h: seq<Item>, i: nat, j: nat)
    requires i < |h| && j < |h|
    ensures multiset(Swap(h, i, j)) == multiset(h)
  {
  }

  lemma SwapCounts(h: seq<Item>, i: nat, j: nat, weight: Item -> int)
    requires i < |h| && j < |h|
    ensures Count(Swap(h, i, j), weight) == Count(h, weight)
  {
    CountUpdate(h, i, h[j], weight);
    CountUpdate(h[i := h[j]], j, h[i], weight);
  }

  // ---- sifting up ----

  /** A heap, but for item i, which may belong higher up. */
  ghost predicate HeapButUp(h: seq<Item>, i: nat)
  {
    && i < |h|
    && (forall j {:trigger Below(h, j)} :: 0 < j < |h| && j != i ==> Below(h, j))
    && (forall j {:trigger Below(h, j)} :: i > 0 && 0 < j < |h| && Parent(j) == i ==> h[Parent(i)].when <= h[j].when)
  }

  /** The heap after siftUp, and where the item went. */
  function SiftUp(h: seq<Item>, i: nat): (r: (seq<Item>, nat))
    requires i < |h|
    ensures |r.0| == |h| && r.1 <= i && r.0[r.1] == h[i]
    decreases i
  {
    if i == 0 || h[i].when >= h[Parent(i)].when then (h, i) else SiftUp(Swap(h, i, Parent(i)), Parent(i))
  }

  lemma UpStep(h: seq<Item>, i: nat)
    requires HeapButUp(h, i) && i > 0 && h[i].when < h[Parent(i)].when
    ensures HeapButUp(Swap(h, i, Parent(i)), Parent(i))
  {
    var p := Parent(i);
    var t := Swap(h, i, p);
    forall j | 0 < j < |t| && j != p
      ensures Below(t, j)
    {
      assert j != i ==> Below(h, j);
      assert Parent(j) == p && j != i ==> h[p].when <= h[j].when;
      assert Parent(j) == i ==> h[p].when <= h[j].when;
    }
    forall j | p > 0 && 0 < j < |t| && Parent(j) == p
      ensures t[Parent(p)].when <= t[j].when
    {
      assert Below(h, p);
      assert j != i ==> Below(h, j);
    }
  }

  lemma {:induction false} SiftUpIsHeap(h: seq<Item>, i: nat)
    requires HeapButUp(h, i)
    ensures Heap(SiftUp(h, i).0) && multiset(SiftUp(h, i).0) == multiset(h)
    decreases i
  {
    hide Swap;
    if i == 0 || h[i].when >= h[Parent(i)].when {
      forall j | 0 < j < |h|
        ensures Below(h, j)
      {
        assert j == i ==> Below(h, j);
      }
    } else {
      UpStep(h, i);
      SwapPermutes(h, i, Parent(i));
      SiftUpIsHeap(Swap(h, i, Parent(i)), Parent(i));
    }
  }

  /** The item stops at the root exactly when it is earlier than all before it, or alone. */
  lemma {:induction false} SiftUpToRoot(h: seq<Item>, i: nat)
    requires i < |h| && forall j {:trigger Below(h, j)} :: 0 < j < i ==> Below(h, j)
    ensures SiftUp(h, i).1 == 0 <==> i == 0 || h[i].when < h[0].when
    ensures SiftUp(h, i).1 != 0 ==> SiftUp(h, i).0[0] == h[0]
    decreases i
  {
    if i > 0 {
      if h[i].when < h[Parent(i)].when {
        var t := Swap(h, i, Parent(i));
        forall j | 0 < j < Parent(i)
          ensures Below(t, j)
        {
          assert Below(h, j);
        }
        SiftUpToRoot(t, Parent(i));
      } else {
        EarliestOf(h, i, Parent(i));
      }
    }
  }

  lemma {:induction false} EarliestOf(h: seq<Item>, i: nat, k: nat)
    requires k < i < |h| && forall j {:trigger Below(h, j)} :: 0 < j < i ==> Below(h, j)
    ensures h[0].when <= h[k].when
    decreases k
  {
    if k > 0 {
      assert Below(h, k);
      EarliestOf(h, i, Parent(k));
    }
  }

  // ---- sifting down ----

  /** A heap, but for item i, which may belong further down. */
  ghost predicate HeapButDown(h: seq<Item>, i: nat)
  {
    && i < |h|
    && (forall j {:trigger Below(h, j)} :: 0 < j < |h| && Parent(j) != i ==> Below(h, j))
    && (forall j {:trigger Below(h, j)} :: i > 0 && 0 < j < |h| && Parent(j) == i ==> h[Parent(i)].when <= h[j].when)
  }

  /** The earliest child, found in two pairs. */
  function MinChild(h: seq<Item>, i: nat): (c: nat)
    requires 4 * i + 1 < |h|
    ensures 4 * i + 1 <= c <= 4 * i + 4 && c < |h|
    ensures forall k :: 4 * i + 1 <= k <= 4 * i + 4 && k < |h| ==> h[c].when <= h[k].when
  {
    var n, c := |h|, 4 * i + 1;
    var a := if c + 1 < n && h[c + 1].when < h[c].when then c + 1 else c;
    if c + 2 < n then
      var b := if c + 3 < n && h[c + 3].when < h[c + 2].when then c + 3 else c + 2;
      if h[b].when < h[a].when then b else a
    else a
  }

  function SiftDown(h: seq<Item>, i: nat): (r: seq<Item>)
    requires i < |h|
    ensures |r| == |h|
    decreases |h| - i
  {
    if 4 * i + 1 >= |h| then h
    else
      var c := MinChild(h, i);
      if h[c].when >= h[i].when then h else SiftDown(Swap(h, i, c), c)
  }

  lemma DownStep(h: seq<Item>, i: nat)
    requires HeapButDown(h, i) && 4 * i + 1 < |h| && h[MinChild(h, i)].when < h[i].when
    ensures HeapButDown(Swap(h, i, MinChild(h, i)), MinChild(h, i))
  {
    hide Swap;
    var c := MinChild(h, i);
    var t := Swap(h, i, c);
    assert Parent(c) == i;
    forall j | 0 < j < |t| && Parent(j) != c
      ensures Below(t, j)
    {
      if j == i {
        assert Below(h, c) || h[Parent(i)].when <= h[c].when;
      } else {
        assert Parent(j) != i ==> Below(h, j);
      }
    }
    forall j | 0 < j < |t| && Parent(j) == c
      ensures t[Parent(c)].when <= t[j].when
    {
      assert Below(h, j);
    }
  }

  lemma DownDone(h: seq<Item>, i: nat)
    requires HeapButDown(h, i)
    requires 4 * i + 1 < |h| ==> h[MinChild(h, i)].when >= h[i].when
    ensures Heap(h)
  {
    forall j | 0 < j < |h|
      ensures Below(h, j)
    {
      if Parent(j) == i {
        assert h[MinChild(h, i)].when <= h[j].when;
      }
    }
  }

  lemma {:induction false} SiftDownIsHeap(h: seq<Item>, i: nat)
    requires HeapButDown(h, i)
    ensures Heap(SiftDown(h, i)) && multiset(SiftDown(h, i)) == multiset(h)
    decreases |h| - i
  {
    hide Swap, MinChild, Heap, HeapButDown;
    if 4 * i + 1 >= |h| || h[MinChild(h, i)].when >= h[i].when {
      DownDone(h, i);
    } else {
      var c := MinChild(h, i);
      DownStep(h, i);
      SwapPermutes(h, i, c);
      SiftDownIsHeap(Swap(h, i, c), c);
    }
  }

  lemma {:induction false} SiftDownCounts(h: seq<Item>, i: nat, weight: Item -> int)
    requires i < |h|
    ensures Count(SiftDown(h, i), weight) == Count(h, weight)
    decreases |h| - i
  {
    hide Swap, MinChild, Count;
    if 4 * i + 1 < |h| && h[MinChild(h, i)].when < h[i].when {
      var c := MinChild(h, i);
      SwapCounts(h, i, c, weight);
      SiftDownCounts(Swap(h, i, c), c, weight);
    }
  }

  // ---- in the array ----

  /** Moving an item into the hole at i and the hole to c is a swap of the list with the hole filled. */
  lemma HoleMoves(s: seq<Item>, i: nat, c: nat, tmp: Item)
    requires i < |s| && c < |s| && i != c
    ensures s[i := s[c]][c := tmp] == Swap(s[i := tmp], i, c)
  {
  }

  /** The heap is the first n slots of a; an item without a deadline is refused as corrupt. */
  method SiftUpArray(a: array<Item>, n: nat, at: nat) returns (i: nat)
    requires at < n <= a.Length && a[at].when > 0
    modifies a
    ensures (a[..n], i) == SiftUp(old(a[..n]), at) && a[n..] == old(a[n..])
  {
    hide Swap;
    i := at;
    ghost var h, rest := a[..n], a[n..];
    var tmp := a[i];
    assert h[i := tmp] == h;
    while i > 0
      invariant i < n && a[n..] == rest
      invariant SiftUp(a[..n][i := tmp], i) == SiftUp(h, at)
    {
      ghost var s := a[..n];
      var p := Parent(i);
      if tmp.when >= a[p].when {
        break;
      }
      HoleMoves(s, i, p, tmp);
      a[i] := a[p];
      assert a[..n] == s[i := s[p]];
      i := p;
    }
    ghost var s := a[..n];
    a[i] := tmp;
    assert a[..n] == s[i := tmp];
  }

  method SiftDownArray(a: array<Item>, n: nat, at: nat)
    requires at < n <= a.Length && a[at].when > 0
    modifies a
    ensures a[..n] == SiftDown(old(a[..n]), at) && a[n..] == old(a[n..])
  {
    hide Swap;
    var i := at;
    ghost var h, rest := a[..n], a[n..];
    var tmp := a[i];
    assert h[i := tmp] == h;
    while true
      invariant i < n && a[n..] == rest
      invariant SiftDown(a[..n][i := tmp], i) == SiftDown(h, at)
      decreases n - i
    {
      ghost var s := a[..n];
      var c := 4 * i + 1;
      if c >= n {
        break;
      }
      c := EarliestChild(a, n, i, tmp);
      if a[c].when >= tmp.when {
        break;
      }
      HoleMoves(s, i, c, tmp);
      a[i] := a[c];
      assert a[..n] == s[i := s[c]];
      i := c;
    }
    ghost var s := a[..n];
    a[i] := tmp;
    assert a[..n] == s[i := tmp];
  }

  /** The search among the children of i; item i itself is not looked at. */
  method EarliestChild(a: array<Item>, n: nat, i: nat, ghost tmp: Item) returns (c: nat)
    requires 4 * i + 1 < n <= a.Length
    ensures 4 * i < c < n && c == MinChild(a[..n][i := tmp], i)
  {
    c := 4 * i + 1;
    var c3 := c + 2;
    var w := a[c].when;
    if c + 1 < n && a[c + 1].when < w {
      w := a[c + 1].when;
      c := c + 1;
    }
    if c3 < n {
      var w3 := a[c3].when;
      if c3 + 1 < n && a[c3 + 1].when < w3 {
        w3 := a[c3 + 1].when;
        c3 := c3 + 1;
      }
      if w3 < w {
        w := w3;
        c := c3;
      }
    }
  }
}
