/** What path normalisation means: split at the slashes, keep a stack of segments, join again. */
module PathSpec {
  import opened Bytes

  const EMPTY: seq<byte> := []
  const ONE_DOT: seq<byte> := [DOT]
  const TWO_DOTS: seq<byte> := [DOT, DOT]

  const SLASH_SLASH: seq<byte> := [SLASH, SLASH]
  const SLASH_DOT_SLASH: seq<byte> := [SLASH, DOT, SLASH]
  const SLASH_DOT_DOT: seq<byte> := [SLASH, DOT, DOT]
  const SLASH_DOT_DOT_SLASH: seq<byte> := [SLASH, DOT, DOT, SLASH]

  /** One more byte: a slash opens a new segment, any other byte extends the last one. */
  function Feed(segs: seq<seq<byte>>, c: byte): (r: seq<seq<byte>>)
    requires |segs| >= 1
    ensures |r| >= 1
  {
    if c == SLASH then segs + [[]] else segs[..|segs| - 1] + [segs[|segs| - 1] + [c]]
  }

  /** The segments of s: the texts between the slashes, always at least one. */
  function Split(s: seq<byte>): (r: seq<seq<byte>>)
    ensures |r| >= 1
  {
    if s == [] then [[]] else Feed(Split(s[..|s| - 1]), s[|s| - 1])
  }

  function Join(segs: seq<seq<byte>>): seq<byte>
    requires |segs| >= 1
  {
    if |segs| == 1 then segs[0] else Join(segs[..|segs| - 1]) + [SLASH] + segs[|segs| - 1]
  }

  lemma FeedAppend(a: seq<seq<byte>>, b: seq<seq<byte>>, c: byte)
    requires |b| >= 1
    ensures Feed(a + b, c) == a + Feed(b, c)
  {
    assert (a + b)[..|a + b| - 1] == a + b[..|b| - 1];
  }

  lemma JoinFeed(segs: seq<seq<byte>>, c: byte)
    requires |segs| >= 1
    ensures Join(Feed(segs, c)) == Join(segs) + [c]
  {
    var fed := Feed(segs, c);
    assert c == SLASH ==> fed[..|fed| - 1] == segs;
    assert c != SLASH ==> fed[..|fed| - 1] == segs[..|segs| - 1];
  }

  /** Splitting at one slash splits the list of segments. */
  lemma {:induction false} SplitAt(x: seq<byte>, y: seq<byte>)
    ensures Split(x + [SLASH] + y) == Split(x) + Split(y)
  {
    var s := x + [SLASH] + y;
    if y == [] {
      assert s == x + [SLASH] && s[..|s| - 1] == x;
    } else {
      var init, c := y[..|y| - 1], y[|y| - 1];
      SplitAt(x, init);
      assert s[..|s| - 1] == x + [SLASH] + init && s[|s| - 1] == c;
      FeedAppend(Split(x), Split(init), c);
      hide Feed;
      assert Split(y) == Feed(Split(init), c);
    }
  }

  /** A text without a slash is one segment. */
  lemma {:induction false} SplitPlain(s: seq<byte>)
    requires SLASH !in s
    ensures Split(s) == [s]
  {
    if s != [] {
      SplitPlain(s[..|s| - 1]);
      assert s[|s| - 1] in s && s == s[..|s| - 1] + [s[|s| - 1]];
    }
  }

  lemma {:induction false} JoinSplit(s: seq<byte>)
    ensures Join(Split(s)) == s
  {
    hide Feed, Join;
    if s == [] {
      JoinSingle([]);
    } else {
      JoinSplit(s[..|s| - 1]);
      JoinFeed(Split(s[..|s| - 1]), s[|s| - 1]);
    }
  }

  lemma {:induction false} JoinAppend(a: seq<seq<byte>>, b: seq<seq<byte>>)
    requires |a| >= 1 && |b| >= 1
    ensures Join(a + b) == Join(a) + [SLASH] + Join(b)
  {
    if |b| == 1 {
      assert (a + b)[..|a|] == a;
    } else {
      JoinAppend(a, b[..|b| - 1]);
      assert (a + b)[..|a + b| - 1] == a + b[..|b| - 1];
    }
  }

  /** One directory segment: empty and "." stay where they are, ".." goes up, others go down. */
  function Walk(stack: seq<seq<byte>>, seg: seq<byte>): seq<seq<byte>>
  {
    if seg == EMPTY || seg == ONE_DOT then stack
    else if seg == TWO_DOTS then (if stack == [] then [] else stack[..|stack| - 1])
    else stack + [seg]
  }

  function WalkAll(stack: seq<seq<byte>>, segs: seq<seq<byte>>): seq<seq<byte>>
  {
    if segs == [] then stack else Walk(WalkAll(stack, segs[..|segs| - 1]), segs[|segs| - 1])
  }

  /** The specification: every segment but the last is walked; the last stays as it is, except that a final ".."
      goes up and leaves a trailing slash. */
  function Normalized(s: seq<byte>): seq<byte>
  {
    var segs := Split(s);
    var dirs, last := WalkAll([], segs[..|segs| - 1]), segs[|segs| - 1];
    if last == TWO_DOTS then Join([EMPTY] + Walk(dirs, last) + [EMPTY]) else Join([EMPTY] + dirs + [last])
  }

  /** Nothing left to normalise. */
  ghost predicate Normal(s: seq<byte>)
  {
    && s != [] && s[0] == SLASH
    && !Contains(s, SLASH_SLASH) && !Contains(s, SLASH_DOT_SLASH) && !Contains(s, SLASH_DOT_DOT_SLASH)
    && !OccursAt(s, SLASH_DOT_DOT, |s| - 3)
  }

  // ---- cutting something out of the segments that the walk does not notice ----

  lemma {:induction false} WalkAppend(stack: seq<seq<byte>>, a: seq<seq<byte>>, b: seq<seq<byte>>)
    ensures WalkAll(stack, a + b) == WalkAll(WalkAll(stack, a), b)
  {
    if b == [] {
      assert a + b == a;
    } else {
      WalkAppend(stack, a, b[..|b| - 1]);
      assert (a + b)[..|a + b| - 1] == a + b[..|b| - 1];
    }
  }

  lemma CutSegments(s: seq<byte>, s': seq<byte>, a: seq<seq<byte>>, m: seq<seq<byte>>, b: seq<seq<byte>>)
    requires |b| >= 1 && Split(s) == a + m + b && Split(s') == a + b
    requires WalkAll(WalkAll([], a), m) == WalkAll([], a)
    ensures Normalized(s') == Normalized(s)
  {
    hide Split, Walk, WalkAll, Join;
    var dirs := b[..|b| - 1];
    assert (a + m + b)[..|a + m + b| - 1] == (a + m) + dirs;
    assert (a + b)[..|a + b| - 1] == a + dirs;
    WalkAppend([], a + m, dirs);
    WalkAppend([], a, m);
    WalkAppend([], a, dirs);
  }

  lemma WalkOne(stack: seq<seq<byte>>, seg: seq<byte>)
    ensures WalkAll(stack, [seg]) == Walk(stack, seg)
  {
    assert [seg][..0] == [];
  }

  lemma WalkTwo(stack: seq<seq<byte>>, seg: seq<byte>, seg': seq<byte>)
    ensures WalkAll(stack, [seg, seg']) == Walk(Walk(stack, seg), seg')
  {
    assert [seg, seg'] == [seg] + [seg'];
    WalkAppend(stack, [seg], [seg']);
    WalkOne(stack, seg);
    WalkOne(Walk(stack, seg), seg');
  }

  /** x/y with a segment in between that the walk ignores: an empty one or ".". */
  lemma CutIdle(x: seq<byte>, seg: seq<byte>, y: seq<byte>)
    requires seg == EMPTY || seg == ONE_DOT
    ensures Normalized(x + [SLASH] + seg + [SLASH] + y) == Normalized(x + [SLASH] + y)
  {
    hide Split, Join, WalkAll, Normalized;
    var s, s' := x + [SLASH] + seg + [SLASH] + y, x + [SLASH] + y;
    assert s == x + [SLASH] + (seg + [SLASH] + y);
    SplitAt(x, seg + [SLASH] + y);
    SplitAt(seg, y);
    SplitAt(x, y);
    SplitPlain(seg);
    WalkOne(WalkAll([], Split(x)), seg);
    CutSegments(s, s', Split(x), [seg], Split(y));
  }

  /** A directory and the ".." that leaves it. */
  lemma CutUp(x: seq<byte>, foo: seq<byte>, y: seq<byte>)
    requires SLASH !in foo && foo != EMPTY && foo != ONE_DOT && foo != TWO_DOTS
    ensures Normalized(x + [SLASH] + foo + SLASH_DOT_DOT_SLASH + y) == Normalized(x + [SLASH] + y)
  {
    hide Split, Join, WalkAll, Normalized;
    var s, s' := x + [SLASH] + foo + SLASH_DOT_DOT_SLASH + y, x + [SLASH] + y;
    var rest := TWO_DOTS + [SLASH] + y;
    assert s == x + [SLASH] + (foo + [SLASH] + rest);
    SplitAt(x, foo + [SLASH] + rest);
    SplitAt(foo, rest);
    SplitAt(TWO_DOTS, y);
    SplitAt(x, y);
    SplitPlain(foo);
    SplitPlain(TWO_DOTS);
    WalkTwo(WalkAll([], Split(x)), foo, TWO_DOTS);
    CutSegments(s, s', Split(x), [foo, TWO_DOTS], Split(y));
  }

  /** ".." at the root stays at the root. */
  lemma CutRootUp(y: seq<byte>)
    ensures Normalized(SLASH_DOT_DOT_SLASH + y) == Normalized([SLASH] + y)
  {
    hide Split, Join, WalkAll, Normalized;
    var s, s' := SLASH_DOT_DOT_SLASH + y, [SLASH] + y;
    var rest := TWO_DOTS + [SLASH] + y;
    assert s == EMPTY + [SLASH] + rest && s' == EMPTY + [SLASH] + y;
    SplitAt(EMPTY, rest);
    SplitAt(TWO_DOTS, y);
    SplitAt(EMPTY, y);
    SplitPlain(EMPTY);
    SplitPlain(TWO_DOTS);
    WalkOne([], EMPTY);
    WalkOne([], TWO_DOTS);
    CutSegments(s, s', [EMPTY], [TWO_DOTS], Split(y));
  }

  lemma CutLastUp(x: seq<byte>, foo: seq<byte>)
    requires SLASH !in foo && foo != EMPTY && foo != ONE_DOT && foo != TWO_DOTS
    ensures Normalized(x + [SLASH] + foo + SLASH_DOT_DOT) == Normalized(x + [SLASH])
  {
    hide Split, Join, WalkAll, Normalized;
    var s, s' := x + [SLASH] + foo + SLASH_DOT_DOT, x + [SLASH];
    assert s == x + [SLASH] + (foo + [SLASH] + TWO_DOTS) && s' == x + [SLASH] + EMPTY;
    SplitAt(x, foo + [SLASH] + TWO_DOTS);
    SplitAt(foo, TWO_DOTS);
    SplitAt(x, EMPTY);
    SplitPlain(foo);
    SplitPlain(TWO_DOTS);
    SplitPlain(EMPTY);
    LastUp(s, s', Split(x), foo);
  }

  lemma LastUp(s: seq<byte>, s': seq<byte>, a: seq<seq<byte>>, foo: seq<byte>)
    requires foo != EMPTY && foo != ONE_DOT && foo != TWO_DOTS
    requires Split(s) == a + [foo, TWO_DOTS] && Split(s') == a + [EMPTY]
    ensures Normalized(s) == Normalized(s')
  {
    hide Split;
    assert (a + [foo, TWO_DOTS])[..|a| + 1] == a + [foo];
    assert (a + [EMPTY])[..|a|] == a;
    WalkAppend([], a, [foo]);
    WalkOne(WalkAll([], a), foo);
  }

  lemma CutLastRootUp()
    ensures Normalized(SLASH_DOT_DOT) == Normalized([SLASH])
  {
    hide Split, Join, WalkAll;
    assert SLASH_DOT_DOT == EMPTY + [SLASH] + TWO_DOTS && [SLASH] == EMPTY + [SLASH] + EMPTY;
    SplitAt(EMPTY, TWO_DOTS);
    SplitAt(EMPTY, EMPTY);
    SplitPlain(TWO_DOTS);
    SplitPlain(EMPTY);
    WalkOne([], EMPTY);
    assert [EMPTY, TWO_DOTS][..1] == [EMPTY] && [EMPTY, EMPTY][..1] == [EMPTY];
  }

  // ---- what is normal is its own normal form ----

  /** A segment in the middle shows up between two slashes. */
  lemma SegmentShows(s: seq<byte>, i: nat)
    requires 0 < i < |Split(s)| - 1
    ensures Contains(s, [SLASH] + Split(s)[i] + [SLASH])
  {
    hide Split, Join;
    var segs := Split(s);
    var a, b := segs[..i], segs[i + 1..];
    JoinSplit(s);
    assert segs == a + ([segs[i]] + b);
    JoinAppend(a, [segs[i]] + b);
    JoinAppend([segs[i]], b);
    JoinSingle(segs[i]);
    var p := [SLASH] + segs[i] + [SLASH];
    assert s == Join(a) + p + Join(b);
    assert OccursAt(s, p, |Join(a)|);
  }

  lemma JoinSingle(seg: seq<byte>)
    ensures Join([seg]) == seg
  {
  }

  lemma {:induction false} WalkPlain(segs: seq<seq<byte>>)
    requires forall i :: 0 <= i < |segs| ==> segs[i] != EMPTY && segs[i] != ONE_DOT && segs[i] != TWO_DOTS
    ensures WalkAll([], segs) == segs
  {
    if segs != [] { WalkPlain(segs[..|segs| - 1]); }
  }

  lemma NormalIsFixed(s: seq<byte>)
    requires Normal(s)
    ensures Normalized(s) == s
  {
    hide Split, Join, WalkAll;
    var segs := Split(s);
    assert s == EMPTY + [SLASH] + s[1..];
    SplitAt(EMPTY, s[1..]);
    SplitPlain(EMPTY);
    var n := |segs|;
    var dirs := segs[1..n - 1];
    forall i | 0 <= i < |dirs| ensures dirs[i] != EMPTY && dirs[i] != ONE_DOT && dirs[i] != TWO_DOTS {
      SegmentShows(s, i + 1);
      assert [SLASH] + EMPTY + [SLASH] == SLASH_SLASH;
      assert [SLASH] + ONE_DOT + [SLASH] == SLASH_DOT_SLASH;
      assert [SLASH] + TWO_DOTS + [SLASH] == SLASH_DOT_DOT_SLASH;
    }
    WalkPlain(dirs);
    assert segs[..n - 1] == [EMPTY] + dirs;
    WalkAppend([], [EMPTY], dirs);
    WalkOne([], EMPTY);
    if segs[n - 1] == TWO_DOTS { LastSegmentShows(s); }
    JoinSplit(s);
    assert segs == [EMPTY] + dirs + [segs[n - 1]];
  }

  lemma LastSegmentShows(s: seq<byte>)
    requires |Split(s)| > 1 && Split(s)[|Split(s)| - 1] == TWO_DOTS
    ensures OccursAt(s, SLASH_DOT_DOT, |s| - 3)
  {
    hide Split, Join;
    var segs := Split(s);
    var a := segs[..|segs| - 1];
    JoinSplit(s);
    assert segs == a + [TWO_DOTS];
    JoinAppend(a, [TWO_DOTS]);
    JoinSingle(TWO_DOTS);
    assert s == Join(a) + SLASH_DOT_DOT;
  }

  // ---- a normal form is normal ----

  ghost predicate SlashFree(segs: seq<seq<byte>>)
  {
    forall i :: 0 <= i < |segs| ==> SLASH !in segs[i]
  }

  ghost predicate Plain(segs: seq<seq<byte>>)
  {
    forall i :: 0 <= i < |segs| ==> segs[i] != EMPTY && segs[i] != ONE_DOT && segs[i] != TWO_DOTS
  }

  lemma {:induction false} SplitSlashFree(s: seq<byte>)
    ensures SlashFree(Split(s))
  {
    if s != [] { SplitSlashFree(s[..|s| - 1]); }
  }

  lemma {:induction false} WalkKeeps(segs: seq<seq<byte>>)
    requires SlashFree(segs)
    ensures SlashFree(WalkAll([], segs)) && Plain(WalkAll([], segs))
  {
    if segs != [] { WalkKeeps(segs[..|segs| - 1]); }
  }

  lemma {:induction false} SplitJoin(segs: seq<seq<byte>>)
    requires |segs| >= 1 && SlashFree(segs)
    ensures Split(Join(segs)) == segs
  {
    if |segs| == 1 {
      SplitPlain(segs[0]);
    } else {
      var init, last := segs[..|segs| - 1], segs[|segs| - 1];
      SplitJoin(init);
      SplitPlain(last);
      SplitAt(Join(init), last);
      assert Join(segs) == Join(init) + [SLASH] + last;
    }
  }

  /** What stands between two slashes is a segment in the middle. */
  lemma BetweenSlashes(s: seq<byte>, seg: seq<byte>) returns (i: nat)
    requires SLASH !in seg && Contains(s, [SLASH] + seg + [SLASH])
    ensures 0 < i < |Split(s)| - 1 && Split(s)[i] == seg
  {
    hide Split;
    var p := [SLASH] + seg + [SLASH];
    var k :| OccursAt(s, p, k);
    var x, y := s[..k], s[k + |p|..];
    var rest := seg + [SLASH] + y;
    assert s == x + p + y == x + [SLASH] + rest;
    SplitAt(x, rest);
    SplitAt(seg, y);
    SplitPlain(seg);
    i := |Split(x)|;
  }

  lemma EndsInDots(s: seq<byte>)
    requires OccursAt(s, SLASH_DOT_DOT, |s| - 3)
    ensures Split(s)[|Split(s)| - 1] == TWO_DOTS
  {
    hide Split;
    var x := s[..|s| - 3];
    assert s == x + [SLASH] + TWO_DOTS;
    SplitAt(x, TWO_DOTS);
    SplitPlain(TWO_DOTS);
  }

  /** A list [EMPTY] + dirs + [last] of plain directories and a last segment other than ".." joins to a normal path. */
  lemma JoinIsNormal(dirs: seq<seq<byte>>, last: seq<byte>)
    requires SlashFree(dirs) && Plain(dirs) && SLASH !in last && last != TWO_DOTS
    ensures Normal(Join([EMPTY] + dirs + [last]))
  {
    hide Split, Join, Contains;
    var segs := [EMPTY] + dirs + [last];
    var s := Join(segs);
    SplitJoin(segs);
    JoinAppend([EMPTY], dirs + [last]);
    JoinSingle(EMPTY);
    assert segs == [EMPTY] + (dirs + [last]);
    if Contains(s, SLASH_SLASH) {
      assert SLASH_SLASH == [SLASH] + EMPTY + [SLASH];
      var i := BetweenSlashes(s, EMPTY);
    }
    if Contains(s, SLASH_DOT_SLASH) {
      assert SLASH_DOT_SLASH == [SLASH] + ONE_DOT + [SLASH];
      var i := BetweenSlashes(s, ONE_DOT);
    }
    if Contains(s, SLASH_DOT_DOT_SLASH) {
      assert SLASH_DOT_DOT_SLASH == [SLASH] + TWO_DOTS + [SLASH];
      var i := BetweenSlashes(s, TWO_DOTS);
    }
    if OccursAt(s, SLASH_DOT_DOT, |s| - 3) {
      EndsInDots(s);
    }
  }

  lemma NormalizedIsNormal(s: seq<byte>)
    ensures Normal(Normalized(s))
  {
    hide Split, Join, WalkAll, Normal;
    var segs := Split(s);
    SplitSlashFree(s);
    WalkKeeps(segs[..|segs| - 1]);
    var dirs, last := WalkAll([], segs[..|segs| - 1]), segs[|segs| - 1];
    if last == TWO_DOTS {
      JoinIsNormal(Walk(dirs, last), EMPTY);
    } else {
      JoinIsNormal(dirs, last);
    }
  }

  // ---- cutting a text between two slashes ----

  /** Removing s[i..j] between equal slashes makes no new occurrence of a pattern without inner slash. */
  lemma CutOccurrence(s: seq<byte>, i: nat, j: nat, p: seq<byte>, k: int)
    requires i <= j < |s| && s[i] == SLASH && s[j] == SLASH && OccursAt(s[..i] + s[j..], p, k)
    requires |p| >= 2 && forall m :: 0 < m < |p| - 1 ==> p[m] != SLASH
    ensures Contains(s, p)
  {
    var s' := s[..i] + s[j..];
    if k >= i {
      assert s[k + (j - i)..k + (j - i) + |p|] == s'[k..k + |p|];
      assert OccursAt(s, p, k + (j - i));
    } else if k + |p| <= i + 1 {
      assert s[k..k + |p|] == s'[k..k + |p|];
      assert OccursAt(s, p, k);
    } else {
      InnerByte(s', p, k, i);
      assert false;
    }
  }

  lemma InnerByte(s: seq<byte>, p: seq<byte>, k: int, i: int)
    requires OccursAt(s, p, k) && k <= i < k + |p|
    ensures p[i - k] == s[i]
  {
    assert s[k..k + |p|][i - k] == s[i];
  }

  lemma CutKeepsAbsence(s: seq<byte>, i: nat, j: nat, p: seq<byte>)
    requires i <= j < |s| && s[i] == SLASH && s[j] == SLASH
    requires |p| >= 2 && forall m :: 0 < m < |p| - 1 ==> p[m] != SLASH
    ensures !Contains(s, p) ==> !Contains(s[..i] + s[j..], p)
  {
    forall k | OccursAt(s[..i] + s[j..], p, k) ensures Contains(s, p) {
      CutOccurrence(s, i, j, p, k);
    }
  }

  lemma PrefixKeepsAbsence(s: seq<byte>, n: nat, p: seq<byte>)
    requires n <= |s|
    ensures !Contains(s, p) ==> !Contains(s[..n], p)
  {
    forall k | OccursAt(s[..n], p, k) ensures OccursAt(s, p, k) {
      assert s[..n][k..k + |p|] == s[k..k + |p|];
    }
  }
}
