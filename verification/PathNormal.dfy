/** normalizePath on a unix build: in place, by repeated removal of substrings. */
module PathNormal {
  import opened Bytes
  import opened Escaping
  import opened PathSpec

  /** addLeadingSlash followed by decodeArgAppendNoPlus: the decoded text with a slash in front. */
  function Rooted(src: seq<byte>): (d: seq<byte>)
    ensures d != [] && d[0] == SLASH
  {
    (if src == [] || src[0] != SLASH then [SLASH] else []) + Decode(src, false)
  }

  /** The path that belongs to a path as written. */
  function PathOf(src: seq<byte>): seq<byte> { Normalized(Rooted(src)) }

  /** copy(a[to:], a[from:n]), overlapping: cuts a[to..from] out of the first n bytes. */
  method Cut(a: array<byte>, to: nat, from: nat, n: nat)
    requires to <= from <= n <= a.Length
    modifies a
    ensures a[..n - (from - to)] == old(a[..n])[..to] + old(a[..n])[from..]
  {
    for i := to to n - (from - to)
      invariant forall k :: 0 <= k < to ==> a[k] == old(a[k])
      invariant forall k :: to <= k < i ==> a[k] == old(a[k + (from - to)])
      invariant forall k :: i + (from - to) <= k < n ==> a[k] == old(a[k])
    {
      a[i] := a[i + (from - to)];
    }
  }

  /** Duplicate slashes. The search goes on where the last one was found. */
  method RemoveSlashSlash(a: array<byte>, size: nat) returns (n: nat)
    requires 0 < size <= a.Length && a[..size][0] == SLASH
    modifies a
    ensures 0 < n <= size && a[..n][0] == SLASH
    ensures Normalized(a[..n]) == old(Normalized(a[..size])) && !Contains(a[..n], SLASH_SLASH)
  {
    hide Normalized, Contains, Index, OccursAt;
    var lo := 0;
    n := size;
    NoneBefore(a[..n], SLASH_SLASH);
    while true
      invariant 0 < n <= size && lo < n && a[..n][0] == SLASH
      invariant Normalized(a[..n]) == old(Normalized(a[..size]))
      invariant forall k :: k < lo ==> !OccursAt(a[..n], SLASH_SLASH, k)
      decreases n
    {
      ghost var s := a[..n];
      assert a[lo..n] == s[lo..];
      var i := Index(a[lo..n], SLASH_SLASH);
      if i < 0 {
        NoneFrom(s, lo, SLASH_SLASH);
        return;
      }
      FirstFrom(s, lo, SLASH_SLASH);
      lo := lo + i;
      CutSlash(s, lo);
      Cut(a, lo, lo + 1, n);
      n := n - 1;
    }
  }

  lemma NoneBefore(s: seq<byte>, p: seq<byte>)
    ensures forall k :: k < 0 ==> !OccursAt(s, p, k)
  {
  }

  lemma FirstFrom(s: seq<byte>, lo: nat, p: seq<byte>)
    requires lo <= |s| && Index(s[lo..], p) >= 0
    requires forall k :: k < lo ==> !OccursAt(s, p, k)
    ensures var i := lo + Index(s[lo..], p);
            i <= |s| - |p| && OccursAt(s, p, i) && forall k :: k < i ==> !OccursAt(s, p, k)
  {
    hide Index;
    var i := Index(s[lo..], p);
    assert s[lo..][i..i + |p|] == s[lo + i..lo + i + |p|];
    forall k | lo <= k < lo + i && OccursAt(s, p, k) ensures OccursAt(s[lo..], p, k - lo) {
      assert s[lo..][k - lo..k - lo + |p|] == s[k..k + |p|];
    }
  }

  lemma NoneFrom(s: seq<byte>, lo: nat, p: seq<byte>)
    requires lo <= |s| && Index(s[lo..], p) < 0
    requires forall k :: k < lo ==> !OccursAt(s, p, k)
    ensures !Contains(s, p)
  {
    forall k | OccursAt(s, p, k) && k >= lo ensures OccursAt(s[lo..], p, k - lo) {
      assert s[lo..][k - lo..k - lo + |p|] == s[k..k + |p|];
    }
  }

  /** One duplicate slash removed. */
  lemma CutSlash(s: seq<byte>, i: nat)
    requires OccursAt(s, SLASH_SLASH, i) && s[0] == SLASH
    requires forall k :: k < i ==> !OccursAt(s, SLASH_SLASH, k)
    ensures var t := s[..i] + s[i + 1..];
            && |t| == |s| - 1 && t[0] == SLASH && Normalized(t) == Normalized(s)
            && forall k :: k < i ==> !OccursAt(t, SLASH_SLASH, k)
  {
    hide Normalized;
    var t := s[..i] + s[i + 1..];
    InnerByte(s, SLASH_SLASH, i, i);
    InnerByte(s, SLASH_SLASH, i, i + 1);
    CutIdle(s[..i], EMPTY, s[i + 2..]);
    assert s == s[..i] + [SLASH] + EMPTY + [SLASH] + s[i + 2..];
    assert t == s[..i] + [SLASH] + s[i + 2..];
    forall k | k < i && OccursAt(t, SLASH_SLASH, k) ensures OccursAt(s, SLASH_SLASH, k) {
      assert t[k..k + 2] == s[k..k + 2];
    }
  }

  /** "/./" parts. */
  method RemoveSlashDotSlash(a: array<byte>, size: nat) returns (n: nat)
    requires 0 < size <= a.Length && a[..size][0] == SLASH && !Contains(a[..size], SLASH_SLASH)
    modifies a
    ensures 0 < n <= size && Tidy(a[..n]) && Normalized(a[..n]) == old(Normalized(a[..size]))
  {
    hide Normalized, Index, OccursAt;
    n := size;
    while true
      invariant 0 < n <= size && a[..n][0] == SLASH
      invariant Normalized(a[..n]) == old(Normalized(a[..size])) && !Contains(a[..n], SLASH_SLASH)
      decreases n
    {
      var i := Index(a[..n], SLASH_DOT_SLASH);
      if i < 0 {
        return;
      }
      CutDot(a[..n], i);
      Cut(a, i, i + 2, n);
      n := n - 2;
    }
  }

  /** One "/./" replaced by a slash. */
  lemma CutDot(s: seq<byte>, i: nat)
    requires OccursAt(s, SLASH_DOT_SLASH, i) && s[0] == SLASH && !Contains(s, SLASH_SLASH)
    ensures var t := s[..i] + s[i + 2..];
            |t| == |s| - 2 && t[0] == SLASH && Normalized(t) == Normalized(s) && !Contains(t, SLASH_SLASH)
  {
    hide Normalized, Contains;
    InnerByte(s, SLASH_DOT_SLASH, i, i);
    InnerByte(s, SLASH_DOT_SLASH, i, i + 1);
    InnerByte(s, SLASH_DOT_SLASH, i, i + 2);
    CutIdle(s[..i], ONE_DOT, s[i + 3..]);
    assert s == s[..i] + [SLASH] + ONE_DOT + [SLASH] + s[i + 3..];
    assert s[..i] + s[i + 2..] == s[..i] + [SLASH] + s[i + 3..];
    CutKeepsAbsence(s, i, i + 2, SLASH_SLASH);
  }

  /** No segment is empty or ".". */
  ghost predicate Tidy(s: seq<byte>)
  {
    s != [] && s[0] == SLASH && !Contains(s, SLASH_SLASH) && !Contains(s, SLASH_DOT_SLASH)
  }

  /** "/foo/../" parts. */
  method RemoveSlashDotDotSlash(a: array<byte>, size: nat) returns (n: nat)
    requires 0 < size <= a.Length && Tidy(a[..size])
    modifies a
    ensures 0 < n <= size && Tidy(a[..n]) && Normalized(a[..n]) == old(Normalized(a[..size]))
    ensures !Contains(a[..n], SLASH_DOT_DOT_SLASH)
  {
    hide Normalized, Index, OccursAt, Tidy, LastIndexByte;
    n := size;
    while true
      invariant 0 < n <= size && Tidy(a[..n]) && Normalized(a[..n]) == old(Normalized(a[..size]))
      decreases n
    {
      var i := Index(a[..n], SLASH_DOT_DOT_SLASH);
      if i < 0 {
        return;
      }
      var j := LastIndexByte(a[..i], SLASH);
      if j < 0 {
        j := 0;
      }
      assert a[..i] == a[..n][..i];
      CutDotDot(a[..n], i, j);
      Cut(a, j, i + 3, n);
      n := n - (i + 3) + j;
    }
  }

  /** The first "/../" removed together with the directory in front of it, if there is one. */
  lemma CutDotDot(s: seq<byte>, i: nat, j: nat)
    requires Tidy(s) && OccursAt(s, SLASH_DOT_DOT_SLASH, i) && forall k :: k < i ==> !OccursAt(s, SLASH_DOT_DOT_SLASH, k)
    requires j == if LastIndexByte(s[..i], SLASH) < 0 then 0 else LastIndexByte(s[..i], SLASH)
    ensures j <= i && s[..j] + s[i + 3..] != [] && Tidy(s[..j] + s[i + 3..]) && Normalized(s[..j] + s[i + 3..]) == Normalized(s)
  {
    hide Normalized, Contains, LastIndexByte;
    InnerByte(s, SLASH_DOT_DOT_SLASH, i, i);
    InnerByte(s, SLASH_DOT_DOT_SLASH, i, i + 1);
    InnerByte(s, SLASH_DOT_DOT_SLASH, i, i + 2);
    InnerByte(s, SLASH_DOT_DOT_SLASH, i, i + 3);
    var t := s[..j] + s[i + 3..];
    assert s[j] == SLASH;
    CutKeepsAbsence(s, j, i + 3, SLASH_SLASH);
    CutKeepsAbsence(s, j, i + 3, SLASH_DOT_SLASH);
    if i == 0 {
      CutRootUp(s[4..]);
      assert s == SLASH_DOT_DOT_SLASH + s[4..] && t == [SLASH] + s[4..];
    } else {
      var foo := s[j + 1..i];
      DirectoryBefore(s, i, j);
      CutUp(s[..j], foo, s[i + 4..]);
      assert s == s[..j] + [SLASH] + foo + SLASH_DOT_DOT_SLASH + s[i + 4..];
      assert t == s[..j] + [SLASH] + s[i + 4..];
    }
  }

  /** What stands between the last two slashes before position i is a proper directory. */
  lemma DirectoryBefore(s: seq<byte>, i: nat, j: nat)
    requires Tidy(s) && j < i < |s| && s[i] == SLASH && s[j] == SLASH && forall k :: j < k < i ==> s[k] != SLASH
    requires !OccursAt(s, SLASH_DOT_DOT_SLASH, j)
    ensures SLASH !in s[j + 1..i]
    ensures s[j + 1..i] != EMPTY && s[j + 1..i] != ONE_DOT && s[j + 1..i] != TWO_DOTS
  {
    var foo := s[j + 1..i];
    assert s[j..i + 1] == [SLASH] + foo + [SLASH];
    assert !OccursAt(s, SLASH_SLASH, j) && !OccursAt(s, SLASH_DOT_SLASH, j);
  }

  /** A final "/foo/..". The test is bytes.LastIndex(b, "/..") + 3 == len(b). */
  method RemoveLastDotDot(a: array<byte>, size: nat) returns (path: seq<byte>)
    requires 0 < size <= a.Length && Tidy(a[..size]) && !Contains(a[..size], SLASH_DOT_DOT_SLASH)
    ensures Normal(path) && path == Normalized(a[..size])
  {
    hide Normalized, Contains, Tidy, Normal, OccursAt, LastIndexByte;
    var i := size - 3;
    if OccursAt(a[..size], SLASH_DOT_DOT, i) {
      EndsAt(a[..size], SLASH_DOT_DOT, i);
      assert a[..i] == a[..size][..i];
      var j := LastIndexByte(a[..i], SLASH);
      CutLast(a[..size], i);
      if j < 0 {
        return [SLASH];
      }
      assert a[..j + 1] == a[..size][..j + 1];
      return a[..j + 1];
    }
    TidyIsNormal(a[..size]);
    return a[..size];
  }

  lemma EndsAt(s: seq<byte>, p: seq<byte>, i: int)
    requires OccursAt(s, p, i)
    ensures 0 <= i <= |s| - |p|
  {
  }

  lemma TidyIsNormal(s: seq<byte>)
    requires Tidy(s) && !Contains(s, SLASH_DOT_DOT_SLASH) && !OccursAt(s, SLASH_DOT_DOT, |s| - 3)
    ensures Normal(s) && Normalized(s) == s
  {
    NormalIsFixed(s);
  }

  lemma CutLast(s: seq<byte>, i: nat)
    requires Tidy(s) && !Contains(s, SLASH_DOT_DOT_SLASH) && i == |s| - 3 && OccursAt(s, SLASH_DOT_DOT, i)
    ensures var j := LastIndexByte(s[..i], SLASH);
            var t := if j < 0 then [SLASH] else s[..j + 1];
            Normal(t) && Normalized(s) == t
  {
    hide Normalized, LastIndexByte, Contains;
    InnerByte(s, SLASH_DOT_DOT, i, i);
    InnerByte(s, SLASH_DOT_DOT, i, i + 1);
    InnerByte(s, SLASH_DOT_DOT, i, i + 2);
    var j := LastIndexByte(s[..i], SLASH);
    if j < 0 {
      assert i == 0;
      assert s == SLASH_DOT_DOT;
      CutLastRootUp();
      assert s[..1] == [SLASH];
      PrefixIsNormal(s, 1);
    } else {
      CutLastDirectory(s, i, j);
      PrefixIsNormal(s, j + 1);
    }
  }

  lemma CutLastDirectory(s: seq<byte>, i: nat, j: nat)
    requires Tidy(s) && !Contains(s, SLASH_DOT_DOT_SLASH) && i == |s| - 3 && OccursAt(s, SLASH_DOT_DOT, i)
    requires 0 <= j == LastIndexByte(s[..i], SLASH)
    ensures s[j] == SLASH && Normalized(s) == Normalized(s[..j + 1])
  {
    hide Normalized, LastIndexByte, Contains;
    var foo := s[j + 1..i];
    NotContained(s, SLASH_DOT_DOT_SLASH, j);
    DirectoryBefore(s, i, j);
    CutLastUp(s[..j], foo);
    assert s == s[..j] + [SLASH] + foo + SLASH_DOT_DOT;
    assert s[..j + 1] == s[..j] + [SLASH];
  }

  lemma NotContained(s: seq<byte>, p: seq<byte>, k: int)
    requires !Contains(s, p)
    ensures !OccursAt(s, p, k)
  {
  }

  /** A prefix that ends in a slash is normal and stays as it is. */
  lemma PrefixIsNormal(s: seq<byte>, n: nat)
    requires Tidy(s) && !Contains(s, SLASH_DOT_DOT_SLASH) && 0 < n <= |s| && s[n - 1] == SLASH
    ensures Normal(s[..n]) && Normalized(s[..n]) == s[..n]
  {
    hide Normalized, Contains;
    PrefixKeepsAbsence(s, n, SLASH_SLASH);
    PrefixKeepsAbsence(s, n, SLASH_DOT_SLASH);
    PrefixKeepsAbsence(s, n, SLASH_DOT_DOT_SLASH);
    if OccursAt(s[..n], SLASH_DOT_DOT, n - 3) {
      InnerByte(s[..n], SLASH_DOT_DOT, n - 3, n - 1);
    }
    NormalIsFixed(s[..n]);
  }

  /** normalizePath: for every source the result is the normal form of the decoded, rooted text. */
  method NormalizePath(src: seq<byte>) returns (path: seq<byte>)
    ensures path == PathOf(src)
    ensures Normal(path)
  {
    hide Normalized, Normal, Decode;
    var dst: seq<byte> := if src == [] || src[0] != SLASH then [SLASH] else [];
    dst := DecodeArgAppendNoPlus(dst, src);
    var a := new byte[|dst|](i requires 0 <= i < |dst| => dst[i]);
    assert a[..|dst|] == dst == Rooted(src);
    var n := RemoveSlashSlash(a, |dst|);
    n := RemoveSlashDotSlash(a, n);
    n := RemoveSlashDotDotSlash(a, n);
    path := RemoveLastDotDot(a, n);
  }

  // ---- writing a normal path out and reading it back ----

  /** normalizePath undoes appendQuotedPath on every normal path. */
  lemma QuotedPathIsRead(p: seq<byte>)
    requires Normal(p)
    ensures PathOf(QuotePath(p)) == p
  {
    hide Normalized, Decode, QuotePathBytes, Contains;
    PathRoundTrip(p);
    QuotePathFirst(p);
    assert p[0] == SLASH && !PathEscapes(SLASH);
    assert QuotePath(p)[0] == SLASH;
    assert Rooted(QuotePath(p)) == [] + p == p;
    NormalIsFixed(p);
  }

  /** Every path the parser stores is normal, and normalising it once more changes nothing. */
  lemma PathOfIsNormal(src: seq<byte>)
    ensures Normal(PathOf(src)) && Normalized(PathOf(src)) == PathOf(src)
  {
    hide Normalized, Normal;
    NormalizedIsNormal(Rooted(src));
    NormalIsFixed(PathOf(src));
  }
}
