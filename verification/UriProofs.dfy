/** Printing a parsed URI and parsing it again gives the same URI. */
module UriProofs {
  import opened Bytes
  import opened Escaping
  import opened PathSpec
  import opened PathNormal
  import opened Uri

  // ---- what a parsed URI looks like ----

  /** A byte that may stand in a host as it is. */
  predicate HostByte(c: byte) { c >= 0x80 || !ShouldEscape(c) }

  ghost predicate HostText(s: seq<byte>)
  {
    forall k :: 0 <= k < |s| ==> HostByte(s[k]) && s[k] != PERCENT
  }

  predicate IsLower(s: seq<byte>)
  {
    forall k :: 0 <= k < |s| ==> s[k] == ToLower(s[k])
  }

  /** A text of host bytes is its own unescaped form. */
  lemma {:induction false} HostTextIsRead(s: seq<byte>)
    requires HostText(s)
    ensures Unescape(s, EncodeHost) == Ok(s)
  {
    hide ShouldEscape, Decode;
    PlainCheck(s);
    DecodePrefix(s, |s|, false);
    DecodeNothing(false);
    assert s[..|s|] == s && s[|s|..] == [] && s + [] == s;
  }

  lemma {:induction false} PlainCheck(s: seq<byte>)
    requires HostText(s)
    ensures CheckEscapes(s, EncodeHost) == Ok(())
  {
    hide ShouldEscape, EscapeError;
    if s != [] { PlainCheck(s[1..]); }
  }

  /** What unescape lets through: host bytes, except for the percent signs of %25 and the bytes of a zone. */
  lemma {:induction false} UnescapedHost(s: seq<byte>)
    requires CheckEscapes(s, EncodeHost).Ok?
    ensures forall k :: 0 <= k < |Decode(s, false)| ==> HostByte(Decode(s, false)[k]) || Decode(s, false)[k] == PERCENT
  {
    hide ShouldEscape;
    if s == [] {
    } else if s[0] == PERCENT {
      UnescapedHost(s[3..]);
      assert Decode(s, false) == [16 * HexValue(s[1]) + HexValue(s[2])] + Decode(s[3..], false);
      assert s[..3] == PERCENT_25 || HexValue(s[1]) >= 8;
      assert s[..3] == PERCENT_25 ==> s[1] == '2' as int && s[2] == '5' as int;
    } else {
      UnescapedHost(s[1..]);
    }
  }

  lemma LastIndexIs(s: seq<byte>, c: byte, i: int)
    requires -1 <= i < |s| && (i >= 0 ==> s[i] == c) && forall k :: i < k < |s| ==> s[k] != c
    ensures LastIndexByte(s, c) == i
  {
    hide LastIndexByte;
  }

  /** One byte of a checked host, plain or escaped; an escape never stands for a colon or a bracket. */
  lemma HostStep(s: seq<byte>, c: byte) returns (n: nat, b: byte)
    requires s != [] && CheckEscapes(s, EncodeHost).Ok? && (c == COLON || c == CLOSE_BRACKET)
    ensures 0 < n <= |s| && CheckEscapes(s[n..], EncodeHost).Ok?
    ensures Decode(s, false) == [b] + Decode(s[n..], false)
    ensures b == c <==> s[0] == c
    ensures s[0] == c ==> n == 1
    ensures forall k :: 0 < k < n ==> s[k] != c
  {
    hide ShouldEscape;
    b := Decode(s, false)[0];
    if s[0] == PERCENT {
      n := 3;
      assert s[..3] == PERCENT_25 || HexValue(s[1]) >= 8;
      assert s[..3] == PERCENT_25 ==> s[1] == '2' as int && s[2] == '5' as int;
    } else {
      n := 1;
    }
  }

  /** The last c of s and of d are followed by the same text. */
  ghost predicate SameEnd(s: seq<byte>, d: seq<byte>, c: byte)
  {
    var i, j := LastIndexByte(s, c), LastIndexByte(d, c);
    (i < 0 ==> j < 0) && (i >= 0 ==> j >= 0 && d[j..] == s[i..])
  }

  /** Unescaping keeps a colon or bracket, the last one included, with the escape-free text behind it. */
  lemma {:induction false} SuffixKept(s: seq<byte>, c: byte)
    requires CheckEscapes(s, EncodeHost).Ok? && (c == COLON || c == CLOSE_BRACKET)
    requires var i := LastIndexByte(s, c); forall k :: 0 <= i < k < |s| ==> s[k] != PERCENT
    ensures SameEnd(s, Decode(s, false), c)
  {
    hide LastIndexByte, CheckEscapes, Decode, SameEnd;
    DecodeNothing(false);
    if s == [] {
      SameEndSelf(s, c);
    } else {
      var n, b := HostStep(s, c);
      var rest := s[n..];
      if LastIndexByte(rest, c) >= 0 {
        LastIndexIs(s, c, n + LastIndexByte(rest, c));
        SuffixKept(rest, c);
        SameEndLater(s, n, b, Decode(rest, false), c);
      } else if s[0] == c {
        LastIndexIs(s, c, 0);
        PlainDecodes(rest);
        assert s == [b] + rest;
        SameEndSelf(s, c);
      } else {
        LastIndexIs(s, c, -1);
        SuffixKept(rest, c);
        SameEndNone(s, n, b, Decode(rest, false), c);
      }
    }
  }

  lemma SameEndSelf(s: seq<byte>, c: byte)
    ensures SameEnd(s, s, c)
  {
  }

  lemma SameEndLater(s: seq<byte>, n: nat, b: byte, d: seq<byte>, c: byte)
    requires n <= |s| && LastIndexByte(s[n..], c) >= 0 && SameEnd(s[n..], d, c)
    ensures SameEnd(s, [b] + d, c)
  {
    hide LastIndexByte;
    var i, j := LastIndexByte(s[n..], c), LastIndexByte(d, c);
    LastIndexIs(s, c, n + i);
    LastIndexIs([b] + d, c, 1 + j);
    assert ([b] + d)[1 + j..] == d[j..] && s[n + i..] == s[n..][i..];
  }

  lemma SameEndNone(s: seq<byte>, n: nat, b: byte, d: seq<byte>, c: byte)
    requires n <= |s| && LastIndexByte(s, c) < 0 && LastIndexByte(s[n..], c) < 0 && SameEnd(s[n..], d, c) && b != c
    ensures SameEnd(s, [b] + d, c)
  {
    hide LastIndexByte;
    LastIndexIs([b] + d, c, -1);
  }

  lemma PlainDecodes(s: seq<byte>)
    requires forall k :: 0 <= k < |s| ==> s[k] != PERCENT
    ensures Decode(s, false) == s
  {
    DecodePrefix(s, |s|, false);
    assert s[|s|..] == [] && s[..|s|] == s && s + [] == s;
  }

  // ---- hosts ----

  /** The port test of parseHost. */
  ghost predicate PortOk(h: seq<byte>)
  {
    if h != [] && h[0] == OPEN_BRACKET then
      var i := LastIndexByte(h, CLOSE_BRACKET); i >= 0 && ValidOptionalPort(h[i + 1..])
    else
      var i := LastIndexByte(h, COLON); i < 0 || ValidOptionalPort(h[i..])
  }

  /** A host parseHost gives back unchanged. */
  ghost predicate Stable(h: seq<byte>) { HostText(h) && PortOk(h) }

  lemma StableIsRead(h: seq<byte>)
    requires Stable(h)
    ensures ParseHost(h) == Ok(h)
  {
    hide LastIndexByte, Index, Unescape, ValidOptionalPort, HostByte;
    HostTextIsRead(h);
    if h != [] && h[0] == OPEN_BRACKET {
      var i := LastIndexByte(h, CLOSE_BRACKET);
      var zone := Index(h[..i], PERCENT_25);
      if zone >= 0 {
        InnerByte(h[..i], PERCENT_25, zone, zone);
      }
    }
  }

  lemma LowercaseStable(h: seq<byte>)
    requires Stable(h)
    ensures Stable(Lowercase(h))
  {
    hide LastIndexByte, ShouldEscape, ValidOptionalPort;
    var l := Lowercase(h);
    forall k | 0 <= k < |l| ensures HostByte(l[k]) && l[k] != PERCENT {
      LowerHostByte(h[k]);
    }
    var c := if h != [] && h[0] == OPEN_BRACKET then CLOSE_BRACKET else COLON;
    var i := LastIndexByte(h, c);
    LastIndexIs(l, c, i);
    if i >= 0 {
      LowerPort(h, i);
      LowerPort(h, i + 1);
    }
  }

  lemma LowerHostByte(c: byte)
    requires HostByte(c)
    ensures HostByte(ToLower(c))
  {
  }

  lemma LowerPort(h: seq<byte>, i: nat)
    requires i <= |h|
    ensures ValidOptionalPort(h[i..]) ==> ValidOptionalPort(Lowercase(h)[i..])
  {
  }

  /** Whatever parseHost lets through without a percent sign. */
  lemma ParsedHostIsStable(raw: seq<byte>)
    requires ParseHost(raw).Ok? && PERCENT !in ParseHost(raw).value
    ensures Stable(ParseHost(raw).value)
  {
    hide LastIndexByte, Index, Decode, ShouldEscape, CheckEscapes;
    var h := ParseHost(raw).value;
    if raw != [] && raw[0] == OPEN_BRACKET {
      var i := LastIndexByte(raw, CLOSE_BRACKET);
      var zone := Index(raw[..i], PERCENT_25);
      if zone >= 0 {
        ZoneHasPercent(raw[zone..i], raw[..i], zone);
      } else {
        UnescapedHost(raw);
        SuffixKept(raw, CLOSE_BRACKET);
        FirstBytePlain(raw);
        var j := LastIndexByte(h, CLOSE_BRACKET);
        assert h[j + 1..] == h[j..][1..] && raw[i + 1..] == raw[i..][1..];
      }
    } else {
      UnescapedHost(raw);
      SuffixKept(raw, COLON);
      FirstBytePlain(raw);
    }
  }

  lemma ZoneHasPercent(s: seq<byte>, t: seq<byte>, zone: nat)
    requires OccursAt(t, PERCENT_25, zone) && s == t[zone..]
    ensures PERCENT in Decode(s, false)
  {
    assert s[..3] == PERCENT_25;
    assert s[0] == PERCENT && s[1] == '2' as int && s[2] == '5' as int;
    assert Decode(s, false)[0] == PERCENT;
  }

  lemma FirstBytePlain(s: seq<byte>)
    requires CheckEscapes(s, EncodeHost).Ok?
    ensures var d := Decode(s, false); (s == [] <==> d == []) && (s != [] ==> (d[0] == OPEN_BRACKET <==> s[0] == OPEN_BRACKET))
  {
    hide ShouldEscape;
    if s != [] && s[0] == PERCENT {
      assert s[..3] == PERCENT_25 || HexValue(s[1]) >= 8;
      assert s[..3] == PERCENT_25 ==> s[1] == '2' as int && s[2] == '5' as int;
    }
  }

  // ---- scheme, query and hash ----

  ghost predicate NoCTL(s: seq<byte>)
  {
    forall k :: 0 <= k < |s| ==> s[k] >= 32 && s[k] != 127
  }

  ghost predicate SchemeText(s: seq<byte>)
  {
    SLASH !in s && NoCTL(s) && IsLower(s)
  }

  lemma SplitUriParts(host: seq<byte>, uri: seq<byte>)
    requires !ContainsCTL(uri)
    ensures var (scheme, _, rest) := SplitUri(host, uri); SchemeText(Lowercase(scheme)) && NoCTL(rest)
  {
    hide Index, IndexByte, ToLower;
    SchemeLower(HTTP);
    SchemeLower([]);
    assert NoCTL(uri);
    if host == [] || Index(uri, COLON_SLASH_SLASH) >= 0 {
      SplitHostParts(host, uri);
    }
  }

  lemma SplitHostParts(host: seq<byte>, uri: seq<byte>)
    requires NoCTL(uri)
    ensures var (scheme, _, rest) := SplitHostURI(host, uri); SchemeText(Lowercase(scheme)) && NoCTL(rest)
  {
    hide Index, IndexByte, Lowercase;
    SchemeLower(HTTP);
    var n := Index(uri, SLASH_SLASH);
    if n >= 0 && IndexByte(uri[..n], SLASH) < 0 {
      var rest := uri[n + 2..];
      assert NoCTL(rest);
      assert forall m :: 0 <= m <= |rest| ==> NoCTL(rest[m..]);
      assert SLASH !in uri[..n];
      SchemeLower(uri[..n]);
      if n > 0 {
        SchemeLower(uri[..n - 1]);
      }
    }
  }

  lemma SchemeLower(s: seq<byte>)
    requires forall k :: 0 <= k < |s| ==> s[k] != SLASH && s[k] >= 32 && s[k] != 127
    ensures SchemeText(Lowercase(s))
  {
  }

  /** The query is a slice that ends before any '#', the hash a slice that ends with the text. */
  lemma RestSlices(b: seq<byte>) returns (lo: nat, hi: nat, k: nat)
    ensures lo <= hi <= |b| && k <= |b| && SplitRest(b).1 == b[lo..hi] && SplitRest(b).2 == b[k..]
    ensures IndexByte(b, HASH) < 0 || hi <= IndexByte(b, HASH)
  {
    hide IndexByte;
    var fragment, query := IndexByte(b, HASH), IndexByte(b, QUESTION);
    k := if fragment >= 0 then fragment + 1 else |b|;
    if query < 0 || (fragment >= 0 && query > fragment) {
      lo, hi := 0, 0;
    } else {
      lo, hi := query + 1, if fragment >= 0 then fragment else |b|;
    }
    assert b[query + 1..|b|] == b[query + 1..] && b[|b|..] == [] && b[0..0] == [];
  }

  lemma SplitRestParts(b: seq<byte>)
    requires NoCTL(b)
    ensures var (_, query, hash) := SplitRest(b); HASH !in query && NoCTL(query) && NoCTL(hash)
  {
    hide IndexByte, NoCTL, SplitRest;
    var lo, hi, k := RestSlices(b);
    NoCTLSlice(b, lo, hi);
    NoCTLSlice(b, k, |b|);
    assert b[k..|b|] == b[k..];
    assert forall i :: 0 <= i < hi - lo ==> b[lo..hi][i] == b[lo + i];
  }

  lemma NoCTLSlice(b: seq<byte>, lo: nat, hi: nat)
    requires NoCTL(b) && lo <= hi <= |b|
    ensures NoCTL(b[lo..hi])
  {
  }

  /** What holds of every parsed URI whose host has no percent sign. */
  ghost predicate Printable(u: Parts)
  {
    && SchemeText(u.scheme) && Stable(u.host) && IsLower(u.host) && Normal(u.path)
    && HASH !in u.query && NoCTL(u.query) && NoCTL(u.hash)
  }

  lemma LowercaseIsLower(s: seq<byte>)
    ensures IsLower(Lowercase(s))
  {
  }

  lemma LowercasePercent(s: seq<byte>)
    requires PERCENT !in Lowercase(s)
    ensures PERCENT !in s
  {
    forall k | 0 <= k < |s| ensures s[k] != PERCENT {
      assert Lowercase(s)[k] == ToLower(s[k]);
    }
  }

  lemma ParsedIsPrintable(host: seq<byte>, uri: seq<byte>, isTLS: bool)
    requires Parse(host, uri, isTLS).Ok? && PERCENT !in Parse(host, uri, isTLS).value.host
    ensures Printable(Parse(host, uri, isTLS).value)
  {
    hide SplitUri, SplitUser, SplitRest, ParseHost, PathOf, Normal, Stable, Lowercase, SchemeText, IsLower, NoCTL, ContainsCTL;
    var (scheme, hostPart, rest) := SplitUri(host, uri);
    var (_, _, raw) := SplitUser(hostPart);
    var (path, _, _) := SplitRest(rest);
    SplitUriParts(host, uri);
    SplitRestParts(rest);
    PathOfIsNormal(path);
    HttpsText();
    var h := ParseHost(raw).value;
    LowercasePercent(h);
    ParsedHostIsStable(raw);
    LowercaseStable(h);
    LowercaseIsLower(h);
  }

  lemma HttpsText()
    ensures SchemeText(HTTPS) && SchemeText(HTTP)
  {
  }

  // ---- reading the printed form ----

  lemma IndexByteIs(s: seq<byte>, c: byte, i: int)
    requires -1 <= i < |s| && (i >= 0 ==> s[i] == c) && forall k :: 0 <= k < (if i < 0 then |s| else i) ==> s[k] != c
    ensures IndexByte(s, c) == i
  {
    hide IndexByte;
  }

  /** The scheme, the host and what follows are found again. */
  lemma SplitPrinted(scheme: seq<byte>, host: seq<byte>, rest: seq<byte>)
    requires SLASH !in scheme && SLASH !in host && QUESTION !in host && rest != [] && rest[0] == SLASH
    ensures SplitHostURI([], scheme + COLON_SLASH_SLASH + host + rest) == (scheme, host, rest)
  {
    hide Index, IndexByte;
    var uri := scheme + COLON_SLASH_SLASH + host + rest;
    var n := Index(uri, SLASH_SLASH);
    FirstSlashes(scheme, host + rest);
    assert uri == scheme + COLON_SLASH_SLASH + (host + rest);
    assert n == |scheme| + 1;
    assert uri[..n] == scheme + [COLON];
    IndexByteIs(uri[..n], SLASH, -1);
    var tail := uri[n + 2..];
    assert tail == host + rest && uri[..n - 1] == scheme;
    IndexByteIs(tail, SLASH, |host|);
    assert tail[..|host|] == host && tail[|host|..] == rest;
  }

  lemma FirstSlashes(scheme: seq<byte>, tail: seq<byte>)
    requires SLASH !in scheme
    ensures Index(scheme + COLON_SLASH_SLASH + tail, SLASH_SLASH) == |scheme| + 1
  {
    hide Index;
    var uri := scheme + COLON_SLASH_SLASH + tail;
    var n := |scheme| + 1;
    assert uri[n..n + 2] == SLASH_SLASH;
    assert OccursAt(uri, SLASH_SLASH, n);
    var k := Index(uri, SLASH_SLASH);
    InnerByte(uri, SLASH_SLASH, k, k);
    assert forall m :: 0 <= m < |scheme| ==> uri[m] == scheme[m];
  }

  /** path ? query # hash */
  datatype Target = Target(path: seq<byte>, hasQuery: bool, query: seq<byte>, hasHash: bool, hash: seq<byte>)
  {
    /** The path ends at the first '?' or '#', the query at the first '#'. */
    predicate Valid()
    {
      && 63 !in path && 35 !in path && 35 !in query
      && (!hasQuery ==> query == []) && (!hasHash ==> hash == [])
    }

    function Text(): seq<byte>
    {
      path + (if hasQuery then [63] + query else []) + (if hasHash then [35] + hash else [])
    }
  }

  /** Where the marks of a target stand. */
  lemma TargetMarks(t: Target)
    requires t.Valid()
    ensures var b, q := t.Text(), |t.path|;
            var f := if t.hasQuery then q + 1 + |t.query| else q;
            && IndexByte(b, HASH) == (if t.hasHash then f else -1)
            && (t.hasQuery ==> IndexByte(b, QUESTION) == q)
            && (!t.hasQuery ==> IndexByte(b, QUESTION) < 0 || (t.hasHash && IndexByte(b, QUESTION) > f))
  {
    hide IndexByte;
    var front := t.path + if t.hasQuery then [63] + t.query else [];
    var tail := if t.hasHash then [35] + t.hash else [];
    assert t.Text() == front + tail;
    FirstIn(front, tail, HASH);
    var more := (if t.hasQuery then [63] + t.query else []) + tail;
    assert t.Text() == t.path + more;
    FirstIn(t.path, more, QUESTION);
  }

  /** A byte that is not in a is found where it is found in b, further on. */
  lemma FirstIn(a: seq<byte>, b: seq<byte>, c: byte)
    requires c !in a
    ensures IndexByte(a + b, c) == if IndexByte(b, c) < 0 then -1 else |a| + IndexByte(b, c)
    ensures b != [] && b[0] == c ==> IndexByte(b, c) == 0
  {
    hide IndexByte;
    var s := a + b;
    assert forall k :: 0 <= k < |a| ==> s[k] == a[k];
    assert forall k :: 0 <= k < |b| ==> s[|a| + k] == b[k];
  }

  lemma Slices(a: seq<byte>, b: seq<byte>, c: seq<byte>)
    ensures (a + b + c)[..|a|] == a && (a + b + c)[|a|..|a| + |b|] == b && (a + b + c)[|a| + |b|..] == c
  {
  }

  /** The parts of a target between its marks. */
  lemma TargetParts(t: Target)
    requires t.Valid()
    ensures var b, q := t.Text(), |t.path|;
            var f := if t.hasQuery then q + 1 + |t.query| else q;
            && b[..q] == t.path
            && (t.hasQuery ==> f <= |b| && b[q + 1..f] == t.query)
            && (t.hasHash ==> f < |b| && b[f + 1..] == t.hash)
            && (!t.hasHash ==> f == |b|)
  {
    var query, hash := if t.hasQuery then [63] + t.query else [], if t.hasHash then [35] + t.hash else [];
    Slices(t.path, query, hash);
    var b, q := t.Text(), |t.path|;
    if t.hasQuery { SliceTail(b, q, q + |query|); }
    if t.hasHash { SliceTail(b, q + |query|, |b|); }
  }

  lemma SliceTail(s: seq<byte>, lo: nat, hi: nat)
    requires lo < hi <= |s|
    ensures s[lo + 1..hi] == s[lo..hi][1..] && s[lo + 1..] == s[lo..][1..]
  {
  }

  lemma TargetIsRead(t: Target)
    requires t.Valid()
    ensures SplitRest(t.Text()) == (t.path, t.query, t.hash)
  {
    hide IndexByte;
    TargetMarks(t);
    TargetParts(t);
    assert t.Text()[..|t.Text()|] == t.Text();
  }

  lemma RestPrinted(path: seq<byte>, query: seq<byte>, hash: seq<byte>)
    requires QUESTION !in path && HASH !in path && HASH !in query
    ensures SplitRest(path + (if query == [] then [] else [QUESTION] + query) + (if hash == [] then [] else [HASH] + hash))
            == (path, query, hash)
  {
    hide SplitRest;
    TargetIsRead(Target(path, query != [], query, hash != [], hash));
  }

  lemma HostMarks(h: seq<byte>)
    requires HostText(h)
    ensures SLASH !in h && QUESTION !in h && AT !in h && NoCTL(h)
  {
    assert ShouldEscape(SLASH) && ShouldEscape(QUESTION) && ShouldEscape(AT);
    assert forall c: byte :: c < 32 || c == 127 ==> ShouldEscape(c);
  }

  lemma LowerFixed(s: seq<byte>)
    requires IsLower(s)
    ensures Lowercase(s) == s
  {
  }

  /** Every printable URI is read back from its printed form. */
  lemma PrintedIsRead(u: Parts)
    requires Printable(u)
    ensures Parse([], FullURI(u), false) == Ok(Parts(u.Scheme(), u.host, u.path, u.query, u.hash, [], []))
  {
    hide ParseHost, SplitRest, SplitHostURI, PathOf, QuotePath, QuotePathBytes, Contains, PortOk, HostText, ContainsCTL;
    var scheme, path := u.Scheme(), QuotePath(u.path);
    var tail := RequestURI(u) + (if u.hash == [] then [] else [HASH] + u.hash);
    HttpsText();
    HostMarks(u.host);
    PathMarks(u.path);
    assert FullURI(u) == scheme + COLON_SLASH_SLASH + u.host + tail;
    SplitPrinted(scheme, u.host, tail);
    PrintedNoCTL(u);
    SplitUserNone(u.host);
    StableIsRead(u.host);
    LowerFixed(u.host);
    LowerFixed(scheme);
    RestPrinted(path, u.query, u.hash);
    QuotedPathIsRead(u.path);
  }

  lemma SplitUserNone(h: seq<byte>)
    requires AT !in h
    ensures SplitUser(h) == ([], [], h)
  {
    IndexByteIs(h, AT, -1);
  }

  lemma PathMarks(p: seq<byte>)
    requires Normal(p)
    ensures p != []
    ensures var q := QuotePath(p); q != [] && q[0] == SLASH && QUESTION !in q && HASH !in q && NoCTL(q)
  {
    hide QuotePathBytes, Contains;
    QuotedPathBytes(p);
    QuotePathFirst(p);
    assert !PathEscapes(SLASH);
  }

  lemma PrintedNoCTL(u: Parts)
    requires Printable(u)
    ensures !ContainsCTL(FullURI(u))
  {
    hide QuotePath, Contains, PortOk, Normal;
    HttpsText();
    HostMarks(u.host);
    PathMarks(u.path);
    hide HostText, SchemeText;
    assert NoCTL(u.Scheme()) && NoCTL(COLON_SLASH_SLASH);
    assert NoCTL(u.Scheme() + COLON_SLASH_SLASH + u.host);
    assert NoCTL(RequestURI(u));
  }

  /** parse, FullURI, parse: scheme, host, path, query string and hash come back for every URI that parses
      to a host without a percent sign. */
  lemma FullUriRoundTrip(host: seq<byte>, uri: seq<byte>, isTLS: bool)
    requires Parse(host, uri, isTLS).Ok? && PERCENT !in Parse(host, uri, isTLS).value.host
    ensures var u := Parse(host, uri, isTLS).value;
            var r := Parse([], FullURI(u), false);
            && r.Ok? && r.value.Scheme() == u.Scheme() && r.value.host == u.host && r.value.path == u.path
            && r.value.query == u.query && r.value.hash == u.hash
  {
    hide Parse, FullURI, Printable;
    ParsedIsPrintable(host, uri, isTLS);
    PrintedIsRead(Parse(host, uri, isTLS).value);
  }

  // ---- and only for those ----

  /** Bytes that unescape can produce. */
  ghost predicate Unescaped(s: seq<byte>)
  {
    forall k :: 0 <= k < |s| ==> HostByte(s[k]) || s[k] == PERCENT || s[k] == SPACE
  }

  /** Decoding checked text gives such bytes, and fewer of them if there was an escape. */
  lemma {:induction false} CheckedDecode(s: seq<byte>, mode: Encoding)
    requires CheckEscapes(s, mode).Ok?
    ensures Unescaped(Decode(s, false)) && |Decode(s, false)| <= |s| && (PERCENT in s ==> |Decode(s, false)| < |s|)
  {
    hide ShouldEscape;
    if s == [] {
    } else if s[0] == PERCENT {
      CheckedDecode(s[3..], mode);
      assert s[..3] == PERCENT_25 ==> s[1] == '2' as int && s[2] == '5' as int;
      assert Decode(s, false) == [16 * HexValue(s[1]) + HexValue(s[2])] + Decode(s[3..], false);
    } else {
      CheckedDecode(s[1..], mode);
      assert s == [s[0]] + s[1..];
    }
  }

  lemma ParsedHostBytes(raw: seq<byte>)
    requires ParseHost(raw).Ok?
    ensures Unescaped(ParseHost(raw).value) && (PERCENT in raw ==> |ParseHost(raw).value| < |raw|)
  {
    hide LastIndexByte, Index, Decode, CheckEscapes, ShouldEscape;
    if raw != [] && raw[0] == OPEN_BRACKET {
      var i := LastIndexByte(raw, CLOSE_BRACKET);
      var zone := Index(raw[..i], PERCENT_25);
      if zone >= 0 {
        InnerByte(raw[..i], PERCENT_25, zone, zone);
        assert raw[zone..i][0] == PERCENT;
        CheckedDecode(raw[..zone], EncodeHost);
        CheckedDecode(raw[zone..i], EncodeZone);
        CheckedDecode(raw[i..], EncodeHost);
      } else {
        CheckedDecode(raw, EncodeHost);
      }
    } else {
      CheckedDecode(raw, EncodeHost);
    }
  }

  lemma LowerUnescaped(h: seq<byte>)
    requires Unescaped(h)
    ensures var l := Lowercase(h); SLASH !in l && QUESTION !in l && AT !in l
  {
    assert ShouldEscape(SLASH) && ShouldEscape(QUESTION) && ShouldEscape(AT);
    var l := Lowercase(h);
    forall k | 0 <= k < |l| ensures l[k] != SLASH && l[k] != QUESTION && l[k] != AT {
      assert l[k] == ToLower(h[k]);
    }
  }

  /** A percent sign in the host does not survive: the printed form is refused or names another host. */
  lemma PercentHostIsLost(host: seq<byte>, uri: seq<byte>, isTLS: bool)
    requires Parse(host, uri, isTLS).Ok? && PERCENT in Parse(host, uri, isTLS).value.host
    ensures var u := Parse(host, uri, isTLS).value;
            var r := Parse([], FullURI(u), false);
            r.Err? || r.value.host != u.host
  {
    hide SplitUri, SplitUser, SplitHostURI, SplitRest, ParseHost, PathOf, Normal, Lowercase, SchemeText, NoCTL, ContainsCTL, QuotePath, Unescaped;
    var u := Parse(host, uri, isTLS).value;
    var (_, hostPart, rest) := SplitUri(host, uri);
    var (_, _, raw) := SplitUser(hostPart);
    var (path, _, _) := SplitRest(rest);
    ParsedHostBytes(raw);
    LowerUnescaped(ParseHost(raw).value);
    PathOfIsNormal(path);
    SplitUriParts(host, uri);
    HttpsText();
    PercentIsRead(u);
  }

  lemma PercentIsRead(u: Parts)
    requires SchemeText(u.scheme) && Normal(u.path) && PERCENT in u.host && SLASH !in u.host && QUESTION !in u.host && AT !in u.host
    ensures var r := Parse([], FullURI(u), false); r.Err? || r.value.host != u.host
  {
    hide ParseHost, SplitRest, SplitHostURI, PathOf, QuotePath, Contains, ContainsCTL, Unescaped;
    var tail := RequestURI(u) + (if u.hash == [] then [] else [HASH] + u.hash);
    HttpsText();
    PathMarks(u.path);
    assert FullURI(u) == u.Scheme() + COLON_SLASH_SLASH + u.host + tail;
    SplitPrinted(u.Scheme(), u.host, tail);
    SplitUserNone(u.host);
    if ParseHost(u.host).Ok? {
      ParsedHostBytes(u.host);
    }
  }

  /** Parse a URI, print it and parse the print: what the second URI holds. */
  method PrintAndParse(host: seq<byte>, uri: seq<byte>, isTLS: bool) returns (u: URI, v: URI, err: Result<()>, again: Result<()>)
    ensures err.Ok? <==> Parse(host, uri, isTLS).Ok?
    ensures err.Ok? && PERCENT !in u.host ==>
              && again.Ok? && v.Value().Scheme() == u.Value().Scheme() && v.host == u.host && v.path == u.path
              && v.queryString == u.queryString && v.hash == u.hash
    ensures err.Ok? && PERCENT in u.host ==> again.Err? || v.host != u.host
  {
    hide Parse, FullURI;
    u := new URI();
    v := new URI();
    err := u.ParseUri(host, uri, isTLS);
    again := err;
    if err.Ok? {
      var printed := u.FullUri();
      again := v.ParseUri([], printed, false);
      if PERCENT in u.host {
        PercentHostIsLost(host, uri, isTLS);
      } else {
        FullUriRoundTrip(host, uri, isTLS);
      }
    }
  }

  /** The URI of a host alone. */
  lemma HostAlone(host: seq<byte>)
    requires SLASH !in host && QUESTION !in host && AT !in host && NoCTL(host)
    ensures Parse([], HTTP + COLON_SLASH_SLASH + host + [SLASH], false)
            == match ParseHost(host)
               case Err(e) => Err(e)
               case Ok(h) => Ok(Parts(HTTP, Lowercase(h), [SLASH], [], [], [], []))
  {
    hide ParseHost, SplitRest, SplitHostURI, PathOf, QuotePath;
    HttpsText();
    LowerFixed(HTTP);
    SplitPrinted(HTTP, host, [SLASH]);
    SplitUserNone(host);
    RestPrinted([SLASH], [], []);
    assert [SLASH] + [] + [] == [SLASH];
    SlashAlone();
    assert NoCTL(HTTP + COLON_SLASH_SLASH + host + [SLASH]);
  }

  lemma SlashAlone()
    ensures PathOf([SLASH]) == [SLASH] && QuotePath([SLASH]) == [SLASH]
  {
    PathOfIsNormal([SLASH]);
    var s: seq<byte> := [SLASH];
    assert Decode(s, false) == [SLASH] + Decode(s[1..], false);
    assert Rooted(s) == s;
    NormalIsFixed(s);
    assert s[..0] == [] && QuotePathBytes(s) == QuotePathBytes([]) + QuotePathByte(SLASH);
  }

  // ---- what unescape accepts, and what it makes of it ----

  /** A byte as it is, or one written as a percent sign and two hexadecimal digits. */
  datatype Piece = Plain(c: byte) | Escaped(hi: byte, lo: byte)
  {
    function Text(): seq<byte> { if Plain? then [c] else [PERCENT, hi, lo] }

    predicate IsPercent() { Escaped? && hi == '2' as int && lo == '5' as int }

    /** RFC 3986 for hosts (an escape only for a byte that is not ASCII), RFC 6874 for zones. */
    predicate Allowed(mode: Encoding)
    {
      if Plain? then c != PERCENT && HostByte(c)
      else
        && HexValue(hi) < 16 && HexValue(lo) < 16
        && (IsPercent() || if mode == EncodeHost then Byte() >= 0x80 else Byte() == SPACE || !ShouldEscape(Byte()))
    }

    function Byte(): byte
    {
      if Plain? then c else if HexValue(hi) < 16 && HexValue(lo) < 16 then 16 * HexValue(hi) + HexValue(lo) else 0
    }
  }

  function Text(ps: seq<Piece>): seq<byte>
  {
    if ps == [] then [] else ps[0].Text() + Text(ps[1..])
  }

  function Meaning(ps: seq<Piece>): seq<byte>
  {
    if ps == [] then [] else [ps[0].Byte()] + Meaning(ps[1..])
  }

  predicate AllAllowed(ps: seq<Piece>, mode: Encoding)
  {
    forall k :: 0 <= k < |ps| ==> ps[k].Allowed(mode)
  }

  ghost predicate Reading(s: seq<byte>, mode: Encoding, t: seq<byte>, ps: seq<Piece>)
  {
    AllAllowed(ps, mode) && Text(ps) == s && Meaning(ps) == t
  }

  lemma PieceIsRead(p: Piece, rest: seq<byte>, mode: Encoding)
    requires p.Allowed(mode)
    ensures CheckEscapes(p.Text() + rest, mode).Ok? <==> CheckEscapes(rest, mode).Ok?
    ensures Decode(p.Text() + rest, false) == [p.Byte()] + Decode(rest, false)
  {
    hide ShouldEscape, Decode;
    var s := p.Text() + rest;
    assert s[..|p.Text()|] == p.Text() && s[|p.Text()|..] == rest;
    DecodeAt(s, 0, false);
    assert s[0..] == s;
  }

  lemma {:induction false} PiecesAreRead(ps: seq<Piece>, mode: Encoding)
    requires AllAllowed(ps, mode)
    ensures CheckEscapes(Text(ps), mode).Ok? && Decode(Text(ps), false) == Meaning(ps)
  {
    hide CheckEscapes, Decode, Piece.Allowed, Piece.Byte;
    if ps == [] {
      NoText(mode);
    } else {
      PiecesAreRead(ps[1..], mode);
      PieceIsRead(ps[0], Text(ps[1..]), mode);
    }
  }

  lemma NoText(mode: Encoding)
    ensures CheckEscapes([], mode).Ok? && Decode([], false) == []
  {
  }

  /** The first piece of a checked text. */
  lemma FirstPiece(s: seq<byte>, mode: Encoding) returns (p: Piece)
    requires s != [] && CheckEscapes(s, mode).Ok?
    ensures p.Allowed(mode) && |p.Text()| <= |s| && s == p.Text() + s[|p.Text()|..]
    ensures CheckEscapes(s[|p.Text()|..], mode).Ok?
    ensures Decode(s, false) == [p.Byte()] + Decode(s[|p.Text()|..], false)
  {
    hide ShouldEscape, Decode;
    DecodeAt(s, 0, false);
    assert s[0..] == s;
    if s[0] == PERCENT {
      p := Escaped(s[1], s[2]);
      assert s[..3] == p.Text();
      assert s[..3] == PERCENT_25 ==> p.IsPercent();
    } else {
      p := Plain(s[0]);
    }
  }

  lemma {:induction false} PiecesOf(s: seq<byte>, mode: Encoding) returns (ps: seq<Piece>)
    requires CheckEscapes(s, mode).Ok?
    ensures Reading(s, mode, Decode(s, false), ps)
    decreases |s|
  {
    hide Decode, CheckEscapes, Piece.Allowed, Piece.Byte;
    if s == [] {
      ps := [];
      DecodeNothing(false);
    } else {
      var p := FirstPiece(s, mode);
      var rest := PiecesOf(s[|p.Text()|..], mode);
      ps := [p] + rest;
      assert ps[1..] == rest;
    }
  }

  /** unescape succeeds with t exactly on the texts that are made of allowed pieces and mean t. */
  lemma UnescapeExactly(s: seq<byte>, mode: Encoding, t: seq<byte>)
    ensures Unescape(s, mode) == Ok(t) <==> exists ps :: Reading(s, mode, t, ps)
  {
    hide Decode, CheckEscapes;
    if Unescape(s, mode) == Ok(t) {
      var ps := PiecesOf(s, mode);
    }
    if ps :| Reading(s, mode, t, ps) {
      PiecesAreRead(ps, mode);
    }
  }

  lemma ThreePieces(p: Piece, q: Piece, r: Piece, mode: Encoding)
    requires p.Allowed(mode) && q.Allowed(mode) && r.Allowed(mode)
    ensures Unescape(p.Text() + q.Text() + r.Text(), mode) == Ok([p.Byte(), q.Byte(), r.Byte()])
  {
    hide Decode, CheckEscapes, Piece.Allowed, Piece.Byte;
    var ps := [p, q, r];
    PiecesAreRead(ps, mode);
    assert ps[1..] == [q, r] && ps[1..][1..] == [r] && ps[1..][1..][1..] == [];
    assert Text(ps[1..]) == q.Text() + Text(ps[1..][1..]) && Text(ps[1..][1..]) == r.Text() + [];
    assert Meaning(ps[1..]) == [q.Byte()] + Meaning(ps[1..][1..]) && Meaning(ps[1..][1..]) == [r.Byte()] + [];
    assert Text(ps) == p.Text() + q.Text() + r.Text();
    assert Meaning(ps) == [p.Byte(), q.Byte(), r.Byte()];
    assert Unescape(Text(ps), mode) == Ok(Meaning(ps));
  }

  /** http://a%25b/ names the host a%b and prints as http://a%b/, which the parser refuses. */
  lemma PercentHostExample()
    ensures var u := Parts(HTTP, ['a' as int, PERCENT, 'b' as int], [SLASH], [], [], [], []);
            && Parse([], HTTP + COLON_SLASH_SLASH + (['a' as int] + PERCENT_25 + ['b' as int]) + [SLASH], false) == Ok(u)
            && FullURI(u) == HTTP + COLON_SLASH_SLASH + u.host + [SLASH]
            && Parse([], FullURI(u), false) == Err(BadEscape([PERCENT, 'b' as int]))
  {
    hide Parse, ParseHost, PathOf, QuotePath;
    var raw: seq<byte> := ['a' as int] + PERCENT_25 + ['b' as int];
    var host: seq<byte> := ['a' as int, PERCENT, 'b' as int];
    HostAlone(raw);
    HostAlone(host);
    SlashAlone();
    PercentHosts();
    LowerFixed(host);
  }

  lemma PercentHosts()
    ensures ParseHost(['a' as int] + PERCENT_25 + ['b' as int]) == Ok(['a' as int, PERCENT, 'b' as int])
    ensures ParseHost(['a' as int, PERCENT, 'b' as int]) == Err(BadEscape([PERCENT, 'b' as int]))
  {
    hide LastIndexByte, Decode;
    var host: seq<byte> := ['a' as int, PERCENT, 'b' as int];
    ThreePieces(Plain('a' as int), Escaped('2' as int, '5' as int), Plain('b' as int), EncodeHost);
    assert host[1..] == [PERCENT, 'b' as int];
    assert CheckEscapes(host, EncodeHost) == CheckEscapes(host[1..], EncodeHost) == Err(BadEscape(host[1..]));
  }
}
