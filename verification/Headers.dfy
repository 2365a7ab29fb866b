/** Header fields: headerScanner.next, readRawHeaders, appendHeaderLine and normalizeHeaderKeyV2. */
module Headers {
  import opened Bytes
  import opened Ledger

  datatype HeaderError = NeedMore | InvalidName

  // ---- names ----

  /** The canonical spelling of a name; `up` says that the next letter is a capital. */
  function Canonical(s: seq<byte>, up: bool): (r: seq<byte>)
    ensures |r| == |s|
  {
    if s == [] then []
    else if up then [ToUpper(s[0])] + Canonical(s[1..], false)
    else if s[0] == DASH then [DASH] + Canonical(s[1..], true)
    else [ToLower(s[0])] + Canonical(s[1..], false)
  }

  lemma {:induction false} CanonicalTwice(s: seq<byte>, up: bool)
    ensures Canonical(Canonical(s, up), up) == Canonical(s, up)
  {
    if s != [] {
      var t := Canonical(s, up);
      var next := !up && s[0] == DASH;
      CanonicalTwice(s[1..], next);
      assert t[1..] == Canonical(s[1..], next);
    }
  }

  /** s is was with its first i bytes rewritten, and rewriting the rest will finish the job. */
  ghost predicate Rewritten(s: seq<byte>, was: seq<byte>, i: nat, up: bool)
  {
    && |s| == |was| && i <= |was| && s[i..] == was[i..]
    && s[..i] + Canonical(was[i..], up) == Canonical(was, true)
  }

  lemma RewriteStarts(was: seq<byte>)
    ensures Rewritten(was, was, 0, true)
  {
    assert was[0..] == was && was[..0] + Canonical(was, true) == Canonical(was, true);
  }

  lemma RewriteOne(s: seq<byte>, was: seq<byte>, i: nat, up: bool, v: byte)
    requires Rewritten(s, was, i, up) && i < |was|
    requires v == if up then ToUpper(s[i]) else ToLower(s[i])
    ensures Rewritten(s[i := v], was, i + 1, !up && s[i] == DASH)
    ensures s[i] == DASH ==> v == DASH
  {
    assert s[i..][0] == was[i..][0] && was[i..][1..] == was[i + 1..] && s[i..][1..] == was[i..][1..];
    assert s[i := v][..i + 1] == s[..i] + [v] && s[i := v][i + 1..] == s[i + 1..];
  }

  lemma RewriteEnds(s: seq<byte>, was: seq<byte>, up: bool)
    requires Rewritten(s, was, |was|, up)
    ensures s == Canonical(was, true)
  {
    assert was[|was|..] == [] && s[..|was|] == s && s + [] == s;
  }

  /** Position i of a name is the first one, or behind a dash that is not itself such a position. */
  predicate Capital(s: seq<byte>, i: nat)
    requires i < |s|
  {
    i == 0 || (s[i - 1] == '-' as int && !Capital(s, i - 1))
  }

  /** A letter at such a position is a capital one, any other letter a small one, and all other bytes stay. */
  ghost predicate Spelled(s: seq<byte>, r: seq<byte>)
  {
    && |r| == |s|
    && (forall i :: 0 <= i < |s| && Capital(s, i) ==> r[i] == if 97 <= s[i] <= 122 then s[i] - 32 else s[i])
    && (forall i :: 0 <= i < |s| && !Capital(s, i) ==> r[i] == if 65 <= s[i] <= 90 then s[i] + 32 else s[i])
  }

  lemma CanonicalIsSpelled(s: seq<byte>)
    ensures Spelled(s, Canonical(s, true))
  {
    hide Canonical, Capital;
    forall i | 0 <= i < |s|
      ensures Canonical(s, true)[i] == if Capital(s, i) then ToUpper(s[i]) else ToLower(s[i])
    {
      SpelledAt(s, true, i);
      CapitalIsUp(s, i);
    }
  }

  /** Whether Canonical, started with `up`, is to write a capital at i. */
  predicate UpAt(s: seq<byte>, up: bool, i: nat)
    requires i < |s|
  {
    if i == 0 then up else UpAt(s[1..], !up && s[0] == DASH, i - 1)
  }

  lemma {:induction false} SpelledAt(s: seq<byte>, up: bool, i: nat)
    requires i < |s|
    ensures Canonical(s, up)[i] == if UpAt(s, up, i) then ToUpper(s[i]) else ToLower(s[i])
    decreases i
  {
    hide ToUpper, ToLower;
    if i > 0 {
      SpelledAt(s[1..], !up && s[0] == DASH, i - 1);
    } else if !up && s[0] == DASH {
      assert ToLower(DASH) == DASH;
    }
  }

  lemma {:induction false} UpNext(s: seq<byte>, up: bool, i: nat)
    requires 0 < i < |s|
    ensures UpAt(s, up, i) <==> s[i - 1] == DASH && !UpAt(s, up, i - 1)
    decreases i
  {
    if i > 1 {
      UpNext(s[1..], !up && s[0] == DASH, i - 1);
    }
  }

  lemma {:induction false} CapitalIsUp(s: seq<byte>, i: nat)
    requires i < |s|
    ensures Capital(s, i) <==> UpAt(s, true, i)
  {
    if i > 0 {
      CapitalIsUp(s, i - 1);
      UpNext(s, true, i);
    }
  }

  /** One word, a dash and another word: both words begin with a capital and go on in small letters. */
  lemma TwoWords(s: seq<byte>, d: nat, i: nat)
    requires 0 < d < |s| && s[d] == '-' as int && (forall k :: 0 <= k < |s| && k != d ==> s[k] != '-' as int)
    requires i < |s|
    ensures Capital(s, i) <==> i == 0 || i == d + 1
  {
    if i == d + 1 {
      assert !Capital(s, d);
    }
  }

  /** content-type is spelled Content-Type. */
  lemma ContentType()
    ensures Canonical([99, 111, 110, 116, 101, 110, 116, 45, 116, 121, 112, 101], true)
            == [67, 111, 110, 116, 101, 110, 116, 45, 84, 121, 112, 101]
  {
    hide Canonical, Capital;
    var s: seq<byte> := [99, 111, 110, 116, 101, 110, 116, 45, 116, 121, 112, 101];
    CanonicalIsSpelled(s);
    var r: seq<byte> := [67, 111, 110, 116, 101, 110, 116, 45, 84, 121, 112, 101];
    forall i | 0 <= i < 12
      ensures Canonical(s, true)[i] == r[i]
    {
      TwoWords(s, 7, i);
    }
  }

  /** A dash that is not itself behind a separating dash starts a new capital; all else is lower case. */
  method NormalizeHeaderKey(b: array<byte>)
    modifies b
    ensures b[..] == Canonical(old(b[..]), true)
    ensures Spelled(old(b[..]), b[..])
  {
    hide Canonical, Rewritten, Spelled;
    var n := b.Length;
    ghost var was := b[..];
    RewriteStarts(was);
    CanonicalIsSpelled(was);
    if n == 0 {
      RewriteEnds(was, was, true);
      return;
    }
    RewriteOne(b[..], was, 0, true, ToUpper(b[0]));
    b[0] := ToUpper(b[0]);
    var i := 1;
    ghost var up := false;
    assert b[..] == was[0 := b[0]];
    while i < n
      invariant 1 <= i <= n && Rewritten(b[..], was, i, up) && (i < n ==> !up)
    {
      ghost var s := b[..];
      RewriteOne(s, was, i, false, ToLower(b[i]));
      if b[i] == DASH {
        assert s[i := DASH] == s;
        up := true;
        i := i + 1;
        if i < n {
          RewriteOne(s, was, i, true, ToUpper(b[i]));
          b[i] := ToUpper(b[i]);
          assert b[..] == s[i := b[i]];
          up := false;
          i := i + 1;
        }
      } else {
        b[i] := ToLower(b[i]);
        assert b[..] == s[i := b[i]];
        i := i + 1;
      }
    }
    RewriteEnds(b[..], was, up);
  }

  // ---- one line ----

  predicate Blank(c: byte)
  {
    c == SPACE || c == TAB
  }

  function TrimLeft(v: seq<byte>): seq<byte>
  {
    if v != [] && Blank(v[0]) then TrimLeft(v[1..]) else v
  }

  function TrimRight(v: seq<byte>): seq<byte>
  {
    if v != [] && Blank(v[|v| - 1]) then TrimRight(v[..|v| - 1]) else v
  }

  function DropCr(v: seq<byte>): seq<byte>
  {
    if v != [] && v[|v| - 1] == CR then v[..|v| - 1] else v
  }

  datatype Scan =
    | Field(key: seq<byte>, value: seq<byte>, used: nat)
    | End(used: nat)
    | Fail(error: HeaderError)

  function KeyOf(raw: seq<byte>, normalize: bool): seq<byte>
  {
    if normalize then Canonical(raw, true) else raw
  }

  /** What the first line of b says, a line being what ends with '\n'. */
  function ScanLine(b: seq<byte>, normalize: bool): (scan: Scan)
    ensures !scan.Fail? ==> 0 < scan.used <= |b|
  {
    var x, c := IndexByte(b, LF), IndexByte(b, COLON);
    if x == 0 then End(1)
    else if x == 1 && b[0] == CR then End(2)
    else if x < 0 then Fail(NeedMore)
    else if x < c then Fail(InvalidName)
    else if c < 0 then Fail(NeedMore)
    else Field(KeyOf(b[..c], normalize), TrimRight(DropCr(TrimLeft(b[c + 1..x]))), x + 1)
  }

  /** The line behind position n of b continues a value: it starts with a blank and has no ':'. */
  predicate Continues(b: seq<byte>, n: nat)
  {
    n + 1 < |b| && Blank(b[n + 1]) &&
    var d := IndexByte(b[n + 1..], LF);
    d > 0 && COLON !in b[n + 1..n + 1 + d]
  }

  /** The value of the first line of b is folded. */
  predicate Folds(b: seq<byte>)
  {
    IndexByte(b, LF) >= 0 && Continues(b, IndexByte(b, LF))
  }

  // ---- the scanner ----

  /** The two cached positions are those a fresh search would find. */
  ghost predicate CacheOk(b: seq<byte>, nextColon: int, nextNewLine: int)
  {
    if nextColon >= 0 then
      && nextNewLine >= 0 && nextColon == IndexByte(b, COLON) && nextColon + 1 + nextNewLine == IndexByte(b, LF)
      && Blank(b[0])
    else nextNewLine < 0
  }

  class HeaderScanner {
    const normalize: bool
    var b: seq<byte>
    var key: seq<byte>
    var value: seq<byte>
    var hLen: nat
    var err: Option<HeaderError>
    var nextColon: int
    var nextNewLine: int
    var initialized: bool

    ghost predicate Valid()
      reads this
    {
      initialized ==> CacheOk(b, nextColon, nextNewLine)
    }

    constructor (b: seq<byte>, normalize: bool)
      ensures Valid() && this.b == b && hLen == 0 && err.None? && this.normalize == normalize
    {
      this.normalize := normalize;
      this.b, key, value, hLen, err := b, [], [], 0, None;
      nextColon, nextNewLine, initialized := 0, 0, false;
    }

    /** Finds the ':' of the first line, from the cache if it is there. */
    method FindColon() returns (n: int)
      requires Valid() && initialized && err.None?
      modifies `nextColon, `err
      ensures err.None? ==> 0 <= n == IndexByte(b, COLON) < IndexByte(b, LF) && nextColon < 0
      ensures err.None? && nextNewLine >= 0 ==> n + 1 + nextNewLine == IndexByte(b, LF)
      ensures err.Some? ==> Valid() && err.value == NameError(b)
      ensures err.None? <==> 0 <= IndexByte(b, COLON) < IndexByte(b, LF)
    {
      hide IndexByte;
      if nextColon >= 0 {
        n, nextColon := nextColon, -1;
      } else {
        n := IndexByte(b, COLON);
        var x := IndexByte(b, LF);
        if x < 0 {
          err := Some(NeedMore);
          return;
        }
        if x < n {
          err := Some(InvalidName);
          return;
        }
        SameByte(b);
      }
      if n < 0 {
        err := Some(NeedMore);
      }
    }

    /** The rest of the line behind the ':' at n, or more than that line if the value is folded. */
    method TakeValue(n: nat) returns (folded: bool)
      requires initialized && nextColon < 0 && n == IndexByte(b, COLON) < IndexByte(b, LF)
      requires nextNewLine >= 0 ==> n + 1 + nextNewLine == IndexByte(b, LF)
      modifies `value, `hLen, `b, `nextColon, `nextNewLine
      ensures Valid() && (folded <==> Folds(old(b)))
      ensures !folded ==>
                var x := IndexByte(old(b), LF);
                && b == old(b)[x + 1..] && hLen == old(hLen) + x + 1
                && value == TrimRight(DropCr(TrimLeft(old(b)[n + 1..x])))
    {
      hide IndexByte, TrimLeft, TrimRight, DropCr, Continues, CacheOk;
      var m := SkipBlanks(b, n + 1);
      ValueFound(b, n, m);
      var newLine := nextNewLine - (m - (n + 1));
      var rest := b[m..];
      if newLine < 0 {
        newLine := IndexByte(rest, LF);
      }
      var end;
      end, folded, nextColon, nextNewLine := ValueEnd(rest, newLine);
      value := TrimValue(rest[..end]);
      hLen, b := hLen + m + end + 1, rest[end + 1..];
    }

    /** next: the caches never change what is found. For every buffer the next field is that of the first line,
        and the scan ends at the empty line. Only the value of a folded line is not modelled: `folded` says that
        the source goes on to unfold it. */
    method Next() returns (more: bool, folded: bool)
      requires Valid() && err.None?
      modifies this
      ensures Valid() && (more <==> ScanLine(old(b), normalize).Field?) && (folded <==> more && Folds(old(b)))
      ensures err == if ScanLine(old(b), normalize).Fail? then Some(ScanLine(old(b), normalize).error) else None
      ensures err.None? && !folded ==> Passed(old(b), b, hLen - old(hLen), ScanLine(old(b), normalize))
      ensures more && !folded ==> Field(key, value, hLen - old(hLen)) == ScanLine(old(b), normalize)
    {
      hide IndexByte, KeyOf, TrimLeft, TrimRight, DropCr, Folds;
      if !initialized {
        nextColon, nextNewLine, initialized := -1, -1, true;
      }
      folded := false;
      FirstLine(b);
      if |b| >= 2 && b[0] == CR && b[1] == LF {
        b, hLen := b[2..], hLen + 2;
        return false, false;
      }
      if |b| >= 1 && b[0] == LF {
        b, hLen := b[1..], hLen + 1;
        return false, false;
      }
      var n := FindColon();
      if err.Some? {
        return false, false;
      }
      key := KeyOf(b[..n], normalize);
      folded := TakeValue(n);
      more := true;
    }
  }

  /** Why a line without a proper name is refused. */
  function NameError(b: seq<byte>): HeaderError
  {
    if 0 <= IndexByte(b, LF) < IndexByte(b, COLON) then InvalidName else NeedMore
  }

  /** The scan of a line moved the buffer and the count of bytes seen. */
  ghost predicate Passed(was: seq<byte>, b: seq<byte>, n: int, scan: Scan)
  {
    && !scan.Fail? && n == scan.used && n <= |was| && b == was[n..]
  }

  lemma SameByte(b: seq<byte>)
    ensures IndexByte(b, LF) == IndexByte(b, COLON) ==> IndexByte(b, LF) == -1
  {
  }

  /** Where the first line of b ends, if it is the empty line. */
  lemma FirstLine(b: seq<byte>)
    ensures |b| >= 2 && b[0] == CR && b[1] == LF ==> IndexByte(b, LF) == 1
    ensures |b| >= 1 && b[0] == LF ==> IndexByte(b, LF) == 0
  {
  }

  method SkipBlanks(b: seq<byte>, from: nat) returns (n: nat)
    requires from <= |b|
    ensures from <= n <= |b| && (forall k :: from <= k < n ==> Blank(b[k])) && (n < |b| ==> !Blank(b[n]))
  {
    n := from;
    while |b| > n && Blank(b[n])
      invariant from <= n <= |b| && forall k :: from <= k < n ==> Blank(b[k])
    {
      n := n + 1;
    }
  }

  lemma {:induction false} TrimmedTo(v: seq<byte>, n: nat)
    requires n <= |v| && (forall k :: 0 <= k < n ==> Blank(v[k])) && (n < |v| ==> !Blank(v[n]))
    ensures TrimLeft(v) == v[n..]
  {
    if n > 0 {
      TrimmedTo(v[1..], n - 1);
    }
  }

  /** The ':' stands at c, the value begins at m; seen from there the line ends where it did. */
  lemma ValueFound(b: seq<byte>, c: nat, m: nat)
    requires c == IndexByte(b, COLON) && c < IndexByte(b, LF) && c < m <= |b|
    requires (forall k :: c + 1 <= k < m ==> Blank(b[k])) && (m < |b| ==> !Blank(b[m]))
    ensures var x := IndexByte(b, LF);
            && m <= x && IndexByte(b[m..], LF) == x - m && TrimLeft(b[c + 1..x]) == b[m..][..x - m]
            && (Continues(b[m..], x - m) <==> Continues(b, x)) && b[m..][x - m + 1..] == b[x + 1..]
  {
    hide IndexByte, TrimLeft, Continues;
    var x := IndexByte(b, LF);
    assert x < m ==> Blank(b[x]);
    IndexByteDrop(b, LF, m);
    TrimmedTo(b[c + 1..x], m - (c + 1));
    assert b[c + 1..x][m - (c + 1)..] == b[m..][..x - m];
    ContinuesBehind(b, m, x);
  }

  lemma ContinuesBehind(b: seq<byte>, m: nat, x: nat)
    requires m <= x < |b|
    ensures Continues(b[m..], x - m) <==> Continues(b, x)
    ensures b[m..][x - m + 1..] == b[x + 1..]
  {
    hide IndexByte;
    assert b[m..][x - m + 1..] == b[x + 1..];
    if x + 1 < |b| {
      assert b[m..][x - m + 1] == b[x + 1];
      var d := IndexByte(b[x + 1..], LF);
      if d > 0 {
        assert b[m..][x - m + 1..x - m + 1 + d] == b[x + 1..x + 1 + d];
      }
    }
  }

  /** The loop over continuation lines: where the value ends, and what it learns about the next line. */
  method ValueEnd(b: seq<byte>, n: nat) returns (end: nat, folded: bool, colon: int, newLine: int)
    requires n < |b| && b[n] == LF
    ensures n <= end < |b| && (folded <==> Continues(b, n)) && (!folded ==> end == n)
    ensures CacheOk(b[end + 1..], colon, newLine)
  {
    hide IndexByte;
    end, folded, colon, newLine := n, false, -1, -1;
    while true
      invariant n <= end < |b| && colon < 0
      invariant folded ==> Continues(b, n)
      invariant !folded ==> end == n
      decreases |b| - end
    {
      if end + 1 >= |b| {
        break;
      }
      if !Blank(b[end + 1]) {
        break;
      }
      var d := IndexByte(b[end + 1..], LF);
      if d <= 0 {
        break;
      }
      var e := end + d + 1;
      var c := IndexByte(b[end + 1..e], COLON);
      if c >= 0 {
        assert b[end + 1..e] == b[end + 1..][..d];
        ColonInLine(b[end + 1..], d, c);
        colon, newLine := c, d - c - 1;
        break;
      }
      folded := true;
      end := e;
    }
  }

  lemma ColonInLine(t: seq<byte>, d: nat, c: nat)
    requires d < |t| && c == IndexByte(t[..d], COLON)
    ensures IndexByte(t, COLON) == c
  {
    IndexByteTake(t, COLON, d);
  }

  method TrimValue(v: seq<byte>) returns (r: seq<byte>)
    ensures r == TrimRight(DropCr(v))
  {
    var n := |v|;
    if n > 0 && v[n - 1] == CR {
      n := n - 1;
    }
    assert DropCr(v) == v[..n];
    while n > 0 && Blank(v[n - 1])
      invariant 0 <= n <= |v| && TrimRight(v[..n]) == TrimRight(DropCr(v))
    {
      assert v[..n][..n - 1] == v[..n - 1];
      n := n - 1;
    }
    r := v[..n];
  }
}
