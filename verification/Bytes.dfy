/** Bytes and the searches of Go's package bytes, by what they promise. */
module Bytes {

  type byte = x: int | 0 <= x < 256

  const SPACE: byte := ' ' as int
  const SLASH: byte := '/' as int
  const DOT: byte := '.' as int
  const PERCENT: byte := '%' as int
  const PLUS: byte := '+' as int
  const AMP: byte := '&' as int
  const EQUALS: byte := '=' as int
  const QUESTION: byte := '?' as int
  const HASH: byte := '#' as int
  const COLON: byte := ':' as int
  const AT: byte := '@' as int
  const STAR: byte := '*' as int
  const DASH: byte := '-' as int
  const CR: byte := '\r' as int
  const LF: byte := '\n' as int
  const TAB: byte := '\t' as int
  const OPEN_BRACKET: byte := '[' as int
  const CLOSE_BRACKET: byte := ']' as int

  const CRLF: seq<byte> := [CR, LF]

  /** The first position of c, or -1. */
  function IndexByte(s: seq<byte>, c: byte): (i: int)
    ensures -1 <= i < |s|
    ensures i >= 0 ==> s[i] == c
    ensures forall k :: 0 <= k < (if i < 0 then |s| else i) ==> s[k] != c
  {
    if s == [] then -1
    else if s[0] == c then 0
    else var i := IndexByte(s[1..], c); if i < 0 then -1 else i + 1
  }

  /** Seen from m on, the first c behind m is m nearer. */
  lemma {:induction false} IndexByteDrop(s: seq<byte>, c: byte, m: nat)
    requires m <= IndexByte(s, c)
    ensures IndexByte(s[m..], c) == IndexByte(s, c) - m
  {
    if m > 0 {
      assert s[1..][m - 1..] == s[m..];
      IndexByteDrop(s[1..], c, m - 1);
    } else {
      assert s[0..] == s;
    }
  }

  /** What comes behind the first c does not matter. */
  lemma {:induction false} IndexByteTake(s: seq<byte>, c: byte, n: nat)
    requires n <= |s|
    ensures IndexByte(s[..n], c) >= 0 ==> IndexByte(s, c) == IndexByte(s[..n], c)
    ensures IndexByte(s[..n], c) < 0 ==> IndexByte(s, c) == -1 || IndexByte(s, c) >= n
  {
    if n > 0 {
      assert s[1..][..n - 1] == s[..n][1..];
      IndexByteTake(s[1..], c, n - 1);
    }
  }

  /** The last position of c, or -1. */
  function LastIndexByte(s: seq<byte>, c: byte): (i: int)
    ensures -1 <= i < |s|
    ensures i >= 0 ==> s[i] == c
    ensures forall k :: i < k < |s| ==> s[k] != c
  {
    if s == [] then -1
    else if s[|s| - 1] == c then |s| - 1
    else LastIndexByte(s[..|s| - 1], c)
  }

  predicate OccursAt(s: seq<byte>, p: seq<byte>, k: int)
  {
    0 <= k <= |s| - |p| && s[k..k + |p|] == p
  }

  /** The first occurrence of p, or -1. */
  function Index(s: seq<byte>, p: seq<byte>): (i: int)
    ensures -1 <= i <= |s| - |p| || i == -1
    ensures i >= 0 ==> OccursAt(s, p, i)
    ensures forall k :: OccursAt(s, p, k) ==> 0 <= i <= k
  {
    IndexFrom(s, p, 0)
  }

  function IndexFrom(s: seq<byte>, p: seq<byte>, from: nat): (i: int)
    ensures i == -1 || from <= i <= |s| - |p|
    ensures i >= 0 ==> OccursAt(s, p, i)
    ensures forall k :: from <= k && OccursAt(s, p, k) ==> 0 <= i <= k
    decreases |s| - from
  {
    if from > |s| - |p| then -1
    else if s[from..from + |p|] == p then from
    else IndexFrom(s, p, from + 1)
  }

  /** p occurs somewhere in s. */
  ghost predicate Contains(s: seq<byte>, p: seq<byte>)
  {
    exists k :: OccursAt(s, p, k)
  }

  /** toLowerTable and toUpperTable */
  function ToLower(c: byte): (r: byte)
    ensures 65 <= c <= 90 ==> r == c + 32
    ensures c < 65 || c > 90 ==> r == c
  {
    if 'A' as int <= c <= 'Z' as int then c + 32 else c
  }

  function ToUpper(c: byte): (r: byte)
    ensures 97 <= c <= 122 ==> r == c - 32
    ensures c < 97 || c > 122 ==> r == c
  {
    if 'a' as int <= c <= 'z' as int then c - 32 else c
  }

  /** lowercaseBytes */
  function Lowercase(s: seq<byte>): (r: seq<byte>)
    ensures |r| == |s| && forall i :: 0 <= i < |s| ==> r[i] == ToLower(s[i])
  {
    seq(|s|, i requires 0 <= i < |s| => ToLower(s[i]))
  }
}
