/** URI.parse, parseHost, unescape, splitHostURI and the printer behind FullURI. */
module Uri {
  import opened Bytes
  import opened Escaping
  import opened PathSpec
  import opened PathNormal

  datatype Error =
    | InvalidUri
    | MissingBracket
    | InvalidPort(port: seq<byte>)
    | BadEscape(text: seq<byte>)
    | InvalidHost(c: byte)

  datatype Result<+T> = Ok(value: T) | Err(error: Error)

  /** The fields of URI that parse sets. */
  datatype Parts = Parts(scheme: seq<byte>, host: seq<byte>, path: seq<byte>, query: seq<byte>, hash: seq<byte>,
                         username: seq<byte>, password: seq<byte>)
  {
    /** Scheme() */
    function Scheme(): seq<byte> { if scheme == [] then HTTP else scheme }
  }

  const HTTP: seq<byte> := ['h' as int, 't' as int, 't' as int, 'p' as int]
  const HTTPS: seq<byte> := HTTP + ['s' as int]
  const COLON_SLASH_SLASH: seq<byte> := [COLON, SLASH, SLASH]
  const PERCENT_25: seq<byte> := [PERCENT, '2' as int, '5' as int]

  datatype Encoding = EncodeHost | EncodeZone

  /** shouldEscape, which is the same for hosts and zones */
  predicate ShouldEscape(c: byte)
  {
    !(IsAlnum(c)
      || c in {'!' as int, '$' as int, '&' as int, '\'' as int, '(' as int, ')' as int, '*' as int, '+' as int, ',' as int,
               ';' as int, '=' as int, ':' as int, '[' as int, ']' as int, '<' as int, '>' as int, '"' as int}
      || c in {'-' as int, '_' as int, '.' as int, '~' as int})
  }

  /** What is wrong with the escape at the start of s, if anything. */
  function EscapeError(s: seq<byte>, mode: Encoding): (r: Result<()>)
    requires s != [] && s[0] == PERCENT
    ensures r.Ok? ==> |s| > 2 && HexValue(s[1]) < 16 && HexValue(s[2]) < 16
  {
    if |s| <= 2 || HexValue(s[1]) == 16 || HexValue(s[2]) == 16 then Err(BadEscape(if |s| > 3 then s[..3] else s))
    else if s[..3] == PERCENT_25 then Ok(())
    else if mode == EncodeHost && HexValue(s[1]) < 8 then Err(BadEscape(s[..3]))
    else
      var v := 16 * HexValue(s[1]) + HexValue(s[2]);
      if mode == EncodeZone && v != SPACE && ShouldEscape(v) then Err(BadEscape(s[..3])) else Ok(())
  }

  /** The first pass of unescape. */
  function CheckEscapes(s: seq<byte>, mode: Encoding): Result<()>
  {
    if s == [] then Ok(())
    else if s[0] == PERCENT then
      var e := EscapeError(s, mode);
      if e.Err? then e else CheckEscapes(s[3..], mode)
    else if s[0] < 0x80 && ShouldEscape(s[0]) then Err(InvalidHost(s[0]))
    else CheckEscapes(s[1..], mode)
  }

  function Unescape(s: seq<byte>, mode: Encoding): Result<seq<byte>>
  {
    match CheckEscapes(s, mode)
    case Err(e) => Err(e)
    case Ok(_) => Ok(Decode(s, false))
  }

  /** The slice of `was` from lo to hi has been unescaped, to the text between lo and the end r; the rest is as it was. */
  ghost predicate UnescapedAt(now: seq<byte>, was: seq<byte>, lo: nat, hi: nat, mode: Encoding, r: Result<nat>)
  {
    && lo <= hi <= |was| == |now| && now[..lo] == was[..lo] && now[hi..] == was[hi..]
    && match Unescape(was[lo..hi], mode)
       case Err(e) => r == Err(e)
       case Ok(t) => r == Ok(lo + |t|) && |t| <= hi - lo && now[lo..lo + |t|] == t
  }

  /** unescape of the slice a[lo:hi] in its own memory: two passes, the second only if there was an escape.
      The result is the end of the unescaped text, which starts at lo. */
  method UnescapeInPlace(a: array<byte>, lo: nat, hi: nat, mode: Encoding) returns (r: Result<nat>)
    requires lo <= hi <= a.Length
    modifies a
    ensures UnescapedAt(a[..], old(a[..]), lo, hi, mode, r)
  {
    hide Decode, CheckEscapes;
    assert a[..][lo..hi] == a[lo..hi];
    var n := CountEscapes(a[lo..hi], mode);
    if n.Err? {
      return Err(n.error);
    }
    if n.value == 0 {
      NothingEscaped(a[lo..hi]);
      return Ok(hi);
    }
    var end := DecodeEscapes(a, lo, hi, mode);
    return Ok(end);
  }

  /** The first pass: how many escapes there are, or what is wrong with the first bad byte. */
  method CountEscapes(s: seq<byte>, mode: Encoding) returns (r: Result<nat>)
    ensures match CheckEscapes(s, mode)
            case Err(e) => r == Err(e)
            case Ok(_) => r.Ok? && (r.value == 0 ==> PERCENT !in s)
  {
    hide EscapeError, ShouldEscape;
    var n := 0;
    var i := 0;
    assert s[0..] == s;
    while i < |s|
      invariant i <= |s| && CheckEscapes(s, mode) == CheckEscapes(s[i..], mode)
      invariant n == 0 ==> PERCENT !in s[..i]
    {
      ghost var rest := s[i..];
      if s[i] == PERCENT {
        n := n + 1;
        var e := EscapeError(s[i..], mode);
        if e.Err? {
          return Err(e.error);
        }
        assert rest[3..] == s[i + 3..];
        i := i + 3;
      } else {
        if s[i] < 0x80 && ShouldEscape(s[i]) {
          return Err(InvalidHost(s[i]));
        }
        assert rest[1..] == s[i + 1..];
        i := i + 1;
      }
    }
    assert s[i..] == [] && s[..i] == s;
    return Ok(n);
  }

  lemma NothingEscaped(s: seq<byte>)
    requires PERCENT !in s
    ensures Decode(s, false) == s
  {
    hide Decode;
    DecodePrefix(s, |s|, false);
    DecodeNothing(false);
    assert s[|s|..] == [] && s[..|s|] == s;
    assert Decode(s, false) == s + [] == s;
  }

  /** The second pass: every escape is known to be complete, and what is written never reaches what is still to be read. */
  method DecodeEscapes(a: array<byte>, lo: nat, hi: nat, ghost mode: Encoding) returns (end: nat)
    requires lo <= hi <= a.Length && CheckEscapes(a[lo..hi], mode).Ok?
    modifies a
    ensures lo <= end <= hi && a[lo..end] == Decode(old(a[lo..hi]), false)
    ensures a[..lo] == old(a[..lo]) && a[hi..] == old(a[hi..])
  {
    hide Decode, CheckEscapes, Decoding;
    var w, i := 0, 0;
    ghost var was, s := a[..], a[lo..hi];
    DecodingStarts(was, lo, s, mode);
    while lo + i < hi
      invariant lo + i <= hi && Decoding(a[..], was, lo, s, w, i, mode)
    {
      DecodingRead(a[..], was, lo, s, w, i, mode);
      if a[lo + i] == PERCENT {
        var c := 16 * HexValue(a[lo + i + 1]) + HexValue(a[lo + i + 2]);
        DecodingStep(a[..], was, lo, s, w, i, mode, c, 3);
        a[lo + w] := c;
        i := i + 3;
      } else {
        DecodingStep(a[..], was, lo, s, w, i, mode, a[lo + i], 1);
        a[lo + w] := a[lo + i];
        i := i + 1;
      }
      w := w + 1;
    }
    DecodingEnds(a[..], was, lo, s, w, mode);
    end := lo + w;
  }

  /** The first i bytes of s, the slice of `was` from lo, are decoded to the w bytes from lo. */
  ghost predicate Decoding(now: seq<byte>, was: seq<byte>, lo: nat, s: seq<byte>, w: nat, i: nat, mode: Encoding)
  {
    && |now| == |was| && lo + |s| <= |was| && was[lo..lo + |s|] == s && w <= i <= |s|
    && now[..lo] == was[..lo] && now[lo + i..] == was[lo + i..]
    && CheckEscapes(s[i..], mode).Ok?
    && now[lo..lo + w] + Decode(s[i..], false) == Decode(s, false)
  }

  lemma DecodingStarts(was: seq<byte>, lo: nat, s: seq<byte>, mode: Encoding)
    requires lo + |s| <= |was| && was[lo..lo + |s|] == s && CheckEscapes(s, mode).Ok?
    ensures Decoding(was, was, lo, s, 0, 0, mode)
  {
    hide Decode, CheckEscapes;
    assert s[0..] == s && was[lo..lo] == [];
  }

  lemma DecodingRead(now: seq<byte>, was: seq<byte>, lo: nat, s: seq<byte>, w: nat, i: nat, mode: Encoding)
    requires Decoding(now, was, lo, s, w, i, mode) && i < |s|
    ensures lo + |s| <= |now| && now[lo + i] == s[i]
    ensures s[i] == PERCENT ==> i + 3 <= |s| && now[lo + i + 1] == s[i + 1] && now[lo + i + 2] == s[i + 2]
                                && HexValue(s[i + 1]) < 16 && HexValue(s[i + 2]) < 16
  {
    hide Decode, CheckEscapes;
    EscapeStep(s, i, mode, []);
    forall k | i <= k < |s| ensures now[lo + k] == s[k] {
      assert now[lo + k] == now[lo + i..][k - i] == was[lo + i..][k - i] == was[lo..lo + |s|][k];
    }
  }

  lemma DecodingStep(now: seq<byte>, was: seq<byte>, lo: nat, s: seq<byte>, w: nat, i: nat, mode: Encoding, c: byte, m: nat)
    requires Decoding(now, was, lo, s, w, i, mode) && i < |s|
    requires if s[i] == PERCENT then m == 3 && i + 3 <= |s| && c == 16 * HexValue(s[i + 1]) + HexValue(s[i + 2])
             else m == 1 && c == s[i]
    ensures lo + w < |now| && Decoding(now[lo + w := c], was, lo, s, w + 1, i + m, mode)
  {
    hide Decode, CheckEscapes, HexValue;
    EscapeStep(s, i, mode, now[lo..lo + w]);
    var next := now[lo + w := c];
    assert next[lo..lo + w + 1] == now[lo..lo + w] + [c];
    assert next[..lo] == now[..lo];
    assert next[lo + i + m..] == now[lo + i..][m..] == was[lo + i..][m..] == was[lo + i + m..];
  }

  lemma DecodingEnds(now: seq<byte>, was: seq<byte>, lo: nat, s: seq<byte>, w: nat, mode: Encoding)
    requires Decoding(now, was, lo, s, w, |s|, mode)
    ensures w <= |s| && lo + |s| <= |now| == |was| && now[lo..lo + w] == Decode(s, false)
    ensures now[..lo] == was[..lo] && now[lo + |s|..] == was[lo + |s|..]
  {
    hide Decode, CheckEscapes;
    DecodeNothing(false);
    assert s[|s|..] == [] && now[lo..lo + w] + [] == now[lo..lo + w];
  }

  /** One round of the second pass, behind what has been decoded to t. */
  lemma EscapeStep(s: seq<byte>, i: nat, mode: Encoding, t: seq<byte>)
    requires i < |s| && CheckEscapes(s[i..], mode).Ok?
    ensures s[i] == PERCENT ==>
              && i + 3 <= |s| && HexValue(s[i + 1]) < 16 && HexValue(s[i + 2]) < 16 && CheckEscapes(s[i + 3..], mode).Ok?
              && t + Decode(s[i..], false) == t + [16 * HexValue(s[i + 1]) + HexValue(s[i + 2])] + Decode(s[i + 3..], false)
    ensures s[i] != PERCENT ==>
              && CheckEscapes(s[i + 1..], mode).Ok?
              && t + Decode(s[i..], false) == t + [s[i]] + Decode(s[i + 1..], false)
  {
    hide Decode, ShouldEscape;
    DecodeAt(s, i, false);
    var rest := s[i..];
    assert rest[1..] == s[i + 1..];
    if s[i] == PERCENT {
      assert rest[3..] == s[i + 3..] && rest[1] == s[i + 1] && rest[2] == s[i + 2];
    }
  }

  predicate ValidOptionalPort(port: seq<byte>)
  {
    port == [] || (port[0] == COLON && forall k :: 1 <= k < |port| ==> '0' as int <= port[k] <= '9' as int)
  }

  function ParseHost(host: seq<byte>): Result<seq<byte>>
  {
    if host != [] && host[0] == OPEN_BRACKET then
      var i := LastIndexByte(host, CLOSE_BRACKET);
      if i < 0 then Err(MissingBracket)
      else if !ValidOptionalPort(host[i + 1..]) then Err(InvalidPort(host[i + 1..]))
      else
        var zone := Index(host[..i], PERCENT_25);
        if zone >= 0 then ParseZoned(host, zone, i)
        else Unescape(host, EncodeHost)
    else
      var i := LastIndexByte(host, COLON);
      if i != -1 && !ValidOptionalPort(host[i..]) then Err(InvalidPort(host[i..])) else Unescape(host, EncodeHost)
  }

  /** The three parts of a host with a zone, each unescaped by its own rules. */
  function ParseZoned(host: seq<byte>, zone: nat, i: nat): Result<seq<byte>>
    requires zone <= i <= |host|
  {
    match Unescape(host[..zone], EncodeHost)
    case Err(e) => Err(e)
    case Ok(host1) =>
      match Unescape(host[zone..i], EncodeZone)
      case Err(e) => Err(e)
      case Ok(host2) =>
        match Unescape(host[i..], EncodeHost)
        case Err(e) => Err(e)
        case Ok(host3) => Ok(host1 + host2 + host3)
  }

  function SplitHostURI(host: seq<byte>, uri: seq<byte>): (seq<byte>, seq<byte>, seq<byte>)
  {
    var n := Index(uri, SLASH_SLASH);
    if n < 0 || IndexByte(uri[..n], SLASH) >= 0 then (HTTP, host, uri)
    else
      var scheme := if n > 0 && uri[n - 1] == COLON then uri[..n - 1] else uri[..n];
      var rest := uri[n + 2..];
      var n, nq := IndexByte(rest, SLASH), IndexByte(rest, QUESTION);
      if nq >= 0 && nq < n then (scheme, rest[..nq], rest[nq..])
      else if n < 0 then
        if nq >= 0 then (scheme, rest[..nq], rest[nq..]) else (scheme, rest, [SLASH])
      else (scheme, rest[..n], rest[n..])
  }

  predicate ContainsCTL(s: seq<byte>)
  {
    exists k :: 0 <= k < |s| && (s[k] < 32 || s[k] == 127)
  }

  /** Path, query string and hash of the rest of a URI. */
  function SplitRest(b: seq<byte>): (seq<byte>, seq<byte>, seq<byte>)
  {
    var fragment := IndexByte(b, HASH);
    var query := if fragment >= 0 && IndexByte(b, QUESTION) > fragment then -1 else IndexByte(b, QUESTION);
    if query < 0 && fragment < 0 then (b, [], [])
    else if query >= 0 then
      if fragment < 0 then (b[..query], b[query + 1..], []) else (b[..query], b[query + 1..fragment], b[fragment + 1..])
    else (b[..fragment], [], b[fragment + 1..])
  }

  /** Scheme, host part and rest; without a scheme in the URI the given host is taken. */
  function SplitUri(host: seq<byte>, uri: seq<byte>): (seq<byte>, seq<byte>, seq<byte>)
  {
    if host == [] || Index(uri, COLON_SLASH_SLASH) >= 0 then SplitHostURI(host, uri) else ([], host, uri)
  }

  /** User name, password and host of a host part. */
  function SplitUser(host: seq<byte>): (seq<byte>, seq<byte>, seq<byte>)
  {
    var n := IndexByte(host, AT);
    if n < 0 then ([], [], host)
    else
      var m := IndexByte(host[..n], COLON);
      if m >= 0 then (host[..m], host[m + 1..n], host[n + 1..]) else (host[..n], [], host[n + 1..])
  }

  function Parse(host: seq<byte>, uri: seq<byte>, isTLS: bool): Result<Parts>
  {
    if ContainsCTL(uri) then Err(InvalidUri)
    else
      var (scheme, hostPart, rest) := SplitUri(host, uri);
      var (username, password, rawHost) := SplitUser(hostPart);
      match ParseHost(rawHost)
      case Err(e) => Err(e)
      case Ok(h) =>
        var (path, query, hash) := SplitRest(rest);
        Ok(Parts(if isTLS then HTTPS else Lowercase(scheme), Lowercase(h), PathOf(path), query, hash, username, password))
  }

  /** RequestURI after a parse: the quoted path and the query string as it was. */
  function RequestURI(u: Parts): seq<byte>
  {
    QuotePath(if u.path == [] then [SLASH] else u.path) + (if u.query == [] then [] else [QUESTION] + u.query)
  }

  function FullURI(u: Parts): seq<byte>
  {
    (u.Scheme() + COLON_SLASH_SLASH + u.host) + RequestURI(u) + (if u.hash == [] then [] else [HASH] + u.hash)
  }

  lemma HostBracket(host: seq<byte>)
    requires host != [] && host[0] == OPEN_BRACKET
    ensures var i := LastIndexByte(host, CLOSE_BRACKET);
            ParseHost(host) == if i < 0 then Err(MissingBracket)
                               else if !ValidOptionalPort(host[i + 1..]) then Err(InvalidPort(host[i + 1..]))
                               else if Index(host[..i], PERCENT_25) >= 0 then ParseZoned(host, Index(host[..i], PERCENT_25), i)
                               else Unescape(host, EncodeHost)
  {
  }

  lemma HostPlain(host: seq<byte>)
    requires host == [] || host[0] != OPEN_BRACKET
    ensures var i := LastIndexByte(host, COLON);
            ParseHost(host) == if i != -1 && !ValidOptionalPort(host[i..]) then Err(InvalidPort(host[i..]))
                               else Unescape(host, EncodeHost)
  {
  }

  /** Two moves bring three slices of one memory together. */
  lemma MovedTogether(s: seq<byte>, end1: nat, zone: nat, end2: nat, i: nat, end3: nat)
    requires end1 <= zone <= end2 <= i <= end3 <= |s|
    ensures var m := s[..end3][..end2] + s[..end3][i..];
            m[..end1] + m[zone..] == s[..end1] + s[zone..end2] + s[i..end3]
  {
    var m := s[..end3][..end2] + s[..end3][i..];
    assert m[..end1] == s[..end1];
    assert m[zone..] == s[zone..end2] + s[i..end3];
  }

  method MoveTogether(a: array<byte>, end1: nat, zone: nat, end2: nat, i: nat, end3: nat) returns (n: nat)
    requires end1 <= zone <= end2 <= i <= end3 <= a.Length
    modifies a
    ensures n <= a.Length && a[..n] == old(a[..end1]) + old(a[zone..end2]) + old(a[i..end3])
  {
    ghost var s := a[..];
    MovedTogether(s, end1, zone, end2, i, end3);
    assert a[..end3] == s[..end3];
    Cut(a, end2, i, end3);
    var end := end2 + (end3 - i);
    Cut(a, end1, zone, end);
    n := end - (zone - end1);
  }

  /** The branch of parseHost for a host with a zone: append(host1, append(host2, host3...)...), where each append
      moves bytes down in the memory it reads from. */
  method UnescapeParts(a: array<byte>, zone: nat, i: nat) returns (r: Result<nat>)
    requires zone <= i <= a.Length
    modifies a
    ensures match ParseZoned(old(a[..]), zone, i)
            case Err(e) => r == Err(e)
            case Ok(h) => r == Ok(|h|) && |h| <= a.Length && a[..|h|] == h
  {
    hide UnescapedAt, ParseZoned;
    ghost var was := a[..];
    var end1 := UnescapeInPlace(a, 0, zone, EncodeHost);
    if end1.Err? {
      FirstFails(a[..], was, zone, i, end1);
      return end1;
    }
    ghost var one := a[..];
    var end2 := UnescapeInPlace(a, zone, i, EncodeZone);
    if end2.Err? {
      SecondFails(one, a[..], was, zone, i, end1, end2);
      return end2;
    }
    ghost var two := a[..];
    var end3 := UnescapeInPlace(a, i, a.Length, EncodeHost);
    ZonedParts(one, two, a[..], was, zone, i, end1, end2, end3);
    if end3.Err? {
      return end3;
    }
    var n := MoveTogether(a, end1.value, zone, end2.value, i, end3.value);
    return Ok(n);
  }

  lemma FirstFails(one: seq<byte>, was: seq<byte>, zone: nat, i: nat, end1: Result<nat>)
    requires zone <= i <= |was| && UnescapedAt(one, was, 0, zone, EncodeHost, end1) && end1.Err?
    ensures ParseZoned(was, zone, i) == Err(end1.error)
  {
    hide Unescape;
    assert was[0..zone] == was[..zone];
  }

  lemma SecondFails(one: seq<byte>, two: seq<byte>, was: seq<byte>, zone: nat, i: nat, end1: Result<nat>, end2: Result<nat>)
    requires zone <= i <= |was| && UnescapedAt(one, was, 0, zone, EncodeHost, end1) && end1.Ok?
    requires UnescapedAt(two, one, zone, i, EncodeZone, end2) && end2.Err?
    ensures ParseZoned(was, zone, i) == Err(end2.error)
  {
    hide Unescape;
    assert was[0..zone] == was[..zone];
    SameBehind(one, was, zone, i);
  }

  /** Unescaping one part leaves the other two where they are and as they are. */
  lemma ZonedParts(one: seq<byte>, two: seq<byte>, three: seq<byte>, was: seq<byte>, zone: nat, i: nat,
                   end1: Result<nat>, end2: Result<nat>, end3: Result<nat>)
    requires zone <= i <= |was| && UnescapedAt(one, was, 0, zone, EncodeHost, end1) && end1.Ok?
    requires UnescapedAt(two, one, zone, i, EncodeZone, end2) && end2.Ok?
    requires UnescapedAt(three, two, i, |was|, EncodeHost, end3)
    ensures match ParseZoned(was, zone, i)
            case Err(e) => end3 == Err(e)
            case Ok(h) =>
              && end3.Ok? && end1.value <= zone <= end2.value <= i <= end3.value <= |three| == |was|
              && h == three[..end1.value] + three[zone..end2.value] + three[i..end3.value]
  {
    hide Unescape;
    assert was[0..zone] == was[..zone];
    SameBehind(one, was, zone, i);
    assert two[i..|was|] == two[i..] == one[i..];
    SamePrefix(two, one, zone, 0, end1.value);
    SamePrefix(three, two, i, 0, end1.value);
    SamePrefix(three, two, i, zone, end2.value);
    assert three[0..end1.value] == three[..end1.value];
  }

  lemma SameBehind(s: seq<byte>, t: seq<byte>, zone: nat, i: nat)
    requires |s| == |t| && zone <= i <= |s| && s[zone..] == t[zone..]
    ensures s[zone..i] == t[zone..i] && s[i..] == t[i..]
  {
    assert s[zone..i] == s[zone..][..i - zone] && t[zone..i] == t[zone..][..i - zone];
    assert s[i..] == s[zone..][i - zone..] && t[i..] == t[zone..][i - zone..];
  }

  lemma SamePrefix(s: seq<byte>, t: seq<byte>, n: nat, lo: nat, hi: nat)
    requires lo <= hi <= n <= |s| == |t| && s[..n] == t[..n]
    ensures s[lo..hi] == t[lo..hi]
  {
    assert s[lo..hi] == s[..n][lo..hi] && t[lo..hi] == t[..n][lo..hi];
  }

  /** parseHost of a host in its own memory: the three parts of a host with a zone are unescaped where they stand and
      then moved together, each over the memory that unescaping left free. The result is the length of the host. */
  method ParseHostInPlace(a: array<byte>) returns (r: Result<nat>)
    modifies a
    ensures match ParseHost(old(a[..]))
            case Err(e) => r == Err(e)
            case Ok(h) => r == Ok(|h|) && |h| <= a.Length && a[..|h|] == h
  {
    hide Unescape, ValidOptionalPort, Index, LastIndexByte, ParseHost;
    if a.Length > 0 && a[0] == OPEN_BRACKET {
      var i := LastIndexByte(a[..], CLOSE_BRACKET);
      if i < 0 {
        HostBracket(a[..]);
        return Err(MissingBracket);
      }
      if !ValidOptionalPort(a[i + 1..]) {
        HostBracket(a[..]);
        return Err(InvalidPort(a[i + 1..]));
      }
      var zone := Index(a[..i], PERCENT_25);
      if zone >= 0 {
        HostBracket(a[..]);
        r := UnescapeParts(a, zone, i);
        return;
      }
      HostBracket(a[..]);
    } else {
      HostPlain(a[..]);
      var i := LastIndexByte(a[..], COLON);
      if i != -1 && !ValidOptionalPort(a[i..]) {
        return Err(InvalidPort(a[i..]));
      }
    }
    assert a[..][0..a.Length] == a[..];
    r := UnescapeInPlace(a, 0, a.Length, EncodeHost);
  }

  /** parse copies the host to a buffer of its own before it has it unescaped there. */
  method ParseCopy(host: seq<byte>) returns (r: Result<seq<byte>>)
    ensures r == ParseHost(host)
  {
    hide ParseHost;
    var buf := new byte[|host|](k requires 0 <= k < |host| => host[k]);
    assert buf[..] == host;
    var n := ParseHostInPlace(buf);
    if n.Err? {
      return Err(n.error);
    }
    return Ok(buf[..n.value]);
  }

  lemma LowercaseNothing()
    ensures Lowercase([]) == []
  {
  }

  /** The part of parse that takes the userinfo off the host. */
  method TakeUser(hostPart: seq<byte>) returns (username: seq<byte>, password: seq<byte>, host: seq<byte>)
    ensures (username, password, host) == SplitUser(hostPart)
  {
    hide IndexByte;
    username, password, host := [], [], hostPart;
    var n := IndexByte(host, AT);
    if n >= 0 {
      var auth := host[..n];
      host := host[n + 1..];
      var m := IndexByte(auth, COLON);
      if m >= 0 {
        username, password := auth[..m], auth[m + 1..];
        assert auth[..m] == hostPart[..m] && auth[m + 1..] == hostPart[m + 1..n];
      } else {
        username := auth;
      }
    }
  }

  /** Userinfo is what stands before the first '@', the password what stands behind its first ':'. */
  lemma UserIsRead(user: seq<byte>, password: seq<byte>, host: seq<byte>)
    requires AT !in user && AT !in password && COLON !in user
    ensures SplitUser(user + ([COLON] + password) + ([AT] + host)) == (user, password, host)
    ensures SplitUser(user + ([AT] + host)) == (user, [], host)
    ensures AT !in host ==> SplitUser(host) == ([], [], host)
  {
    hide IndexByte;
    var auth := user + ([COLON] + password);
    IndexByteBehind(auth, AT, host);
    IndexByteBehind(user, AT, host);
    IndexByteBehind(user, COLON, password);
    assert (auth + ([AT] + host))[..|auth|] == auth && (auth + ([AT] + host))[|auth| + 1..] == host;
    assert auth[..|user|] == user && auth[|user| + 1..] == password;
    var s := auth + ([AT] + host);
    assert s[..|user|] == user && s[|user| + 1..|auth|] == password;
    assert (user + ([AT] + host))[..|user|] == user && (user + ([AT] + host))[|user| + 1..] == host;
    assert COLON !in user ==> IndexByte(user, COLON) == -1;
  }

  /** Whatever is taken off a host part as userinfo stood before its first '@' in one of those two forms. */
  lemma UserWasRead(hostPart: seq<byte>)
    ensures var (user, password, host) := SplitUser(hostPart);
            && AT !in user && AT !in password && COLON !in user
            && (hostPart == user + ([COLON] + password) + ([AT] + host)
                || (password == [] && hostPart == user + ([AT] + host))
                || (AT !in hostPart && user == password == [] && host == hostPart))
  {
    hide IndexByte;
    var n := IndexByte(hostPart, AT);
    if n >= 0 {
      var auth := hostPart[..n];
      var m := IndexByte(auth, COLON);
      assert hostPart == auth + ([AT] + hostPart[n + 1..]);
      assert m >= 0 ==> auth == hostPart[..m] + ([COLON] + hostPart[m + 1..n]);
    }
  }

  lemma IndexByteBehind(a: seq<byte>, c: byte, b: seq<byte>)
    requires c !in a
    ensures IndexByte(a + ([c] + b), c) == |a|
  {
    hide IndexByte;
    var s := a + ([c] + b);
    assert s[|a|] == c;
    assert forall k :: 0 <= k < |a| ==> s[k] == a[k];
  }

  /** URI with the fields that parse fills and FullURI prints. */
  class URI {
    var scheme: seq<byte>
    var host: seq<byte>
    var path: seq<byte>
    var queryString: seq<byte>
    var hash: seq<byte>
    var username: seq<byte>
    var password: seq<byte>

    constructor ()
      ensures Value() == Parts([], [], [], [], [], [], [])
    {
      scheme, host, path, queryString, hash, username, password := [], [], [], [], [], [], [];
    }

    function Value(): Parts
      reads this
    {
      Parts(scheme, host, path, queryString, hash, username, password)
    }

    /** parse: the fields hold the parsed parts unless an error is returned. */
    method ParseUri(hostArg: seq<byte>, uriArg: seq<byte>, isTLS: bool) returns (err: Result<()>)
      modifies this
      ensures match Parse(hostArg, uriArg, isTLS)
              case Ok(u) => err == Ok(()) && Value() == u
              case Err(e) => err == Err(e)
    {
      hide SplitHostURI, SplitUser, SplitRest, ParseHost, PathOf, Normal, ContainsCTL, IndexByte, Index, Lowercase;
      LowercaseNothing();
      scheme, host, path, queryString, hash, username, password := [], [], [], [], [], [], [];
      if ContainsCTL(uriArg) {
        return Err(InvalidUri);
      }
      var h, uri := hostArg, uriArg;
      if |h| == 0 || Index(uri, COLON_SLASH_SLASH) >= 0 {
        var (newScheme, newHost, newURI) := SplitHostURI(h, uri);
        scheme := Lowercase(newScheme);
        h, uri := newHost, newURI;
      }
      if isTLS {
        scheme := HTTPS;
      }
      username, password, h := TakeUser(h);
      var parsedHost := ParseCopy(h);
      if parsedHost.Err? {
        return Err(parsedHost.error);
      }
      host := Lowercase(parsedHost.value);
      var (p, q, f) := SplitRest(uri);
      path := NormalizePath(p);
      queryString, hash := q, f;
      return Ok(());
    }

    /** AppendBytes to an empty buffer */
    method FullUri() returns (dst: seq<byte>)
      ensures dst == FullURI(Value())
    {
      hide QuotePath;
      dst := (if |scheme| == 0 then HTTP else scheme) + COLON_SLASH_SLASH + host;
      var requestURI := AppendQuotedPath([], if |path| == 0 then [SLASH] else path);
      if |queryString| > 0 {
        requestURI := requestURI + ([QUESTION] + queryString);
      }
      assert requestURI == RequestURI(Value());
      dst := dst + requestURI;
      if |hash| > 0 {
        dst := dst + ([HASH] + hash);
      }
    }
  }
}
