/** What a URI is read as, by its form as it is written: origin form with a Host, absolute form, and neither. */
module UriGrammar {
  import opened Bytes
  import opened Escaping
  import opened PathSpec
  import opened PathNormal
  import opened Uri
  import opened UriProofs

  // ---- what is never accepted ----

  predicate Control(s: seq<byte>)
  {
    exists k :: 0 <= k < |s| && (s[k] < 32 || s[k] == 127)
  }

  /** A URI is refused as such exactly if it holds a control byte; nothing in the given host does that. */
  lemma RefusedExactly(host: seq<byte>, uri: seq<byte>, isTLS: bool)
    ensures Parse(host, uri, isTLS) == Err(InvalidUri) <==> Control(uri)
  {
    hide SplitUri, SplitUser, SplitRest, PathOf, ParseHost, Lowercase;
    var (_, hostPart, _) := SplitUri(host, uri);
    var (_, _, raw) := SplitUser(hostPart);
    HostErrors(raw);
  }

  lemma HostErrors(raw: seq<byte>)
    ensures ParseHost(raw) != Err(InvalidUri)
  {
    hide LastIndexByte, Index, Decode, CheckEscapes;
    if raw != [] && raw[0] == OPEN_BRACKET {
      var i := LastIndexByte(raw, CLOSE_BRACKET);
      if i >= 0 {
        var zone := Index(raw[..i], PERCENT_25);
        if zone >= 0 {
          EscapeErrors(raw[..zone], EncodeHost);
          EscapeErrors(raw[zone..i], EncodeZone);
          EscapeErrors(raw[i..], EncodeHost);
        }
      }
    }
    EscapeErrors(raw, EncodeHost);
  }

  lemma {:induction false} EscapeErrors(s: seq<byte>, mode: Encoding)
    ensures CheckEscapes(s, mode) != Err(InvalidUri)
  {
    hide ShouldEscape;
    if s != [] && s[0] == PERCENT {
      if EscapeError(s, mode).Ok? { EscapeErrors(s[3..], mode); }
    } else if s != [] {
      EscapeErrors(s[1..], mode);
    }
  }

  // ---- origin form ----

  /** "://" stands somewhere in the URI. */
  predicate HasSchemeMark(uri: seq<byte>)
  {
    exists i :: 0 <= i < |uri| - 2 && uri[i] == 58 && uri[i + 1] == 47 && uri[i + 2] == 47
  }

  lemma SchemeMark(uri: seq<byte>)
    ensures HasSchemeMark(uri) <==> Index(uri, COLON_SLASH_SLASH) >= 0
  {
    hide Index;
    var n := Index(uri, COLON_SLASH_SLASH);
    if n >= 0 {
      InnerByte(uri, COLON_SLASH_SLASH, n, n);
      InnerByte(uri, COLON_SLASH_SLASH, n, n + 1);
      InnerByte(uri, COLON_SLASH_SLASH, n, n + 2);
      assert uri[n] == 58;
    }
    if HasSchemeMark(uri) {
      var i :| 0 <= i < |uri| - 2 && uri[i] == 58 && uri[i + 1] == 47 && uri[i + 2] == 47;
      assert uri[i..i + 3] == COLON_SLASH_SLASH;
      assert OccursAt(uri, COLON_SLASH_SLASH, i);
    }
  }

  /** A request with a Host and a target without a scheme: the host is the given one in small letters, and the rest is
      read from the target. It fails exactly as the host does. */
  lemma OriginForm(host: seq<byte>, t: Target, isTLS: bool)
    requires host != [] && 64 !in host && t.Valid() && !HasSchemeMark(t.Text()) && !Control(t.Text())
    ensures var r, h := Parse(host, t.Text(), isTLS), ParseHost(host);
            && (r.Ok? <==> h.Ok?) && (r.Err? ==> r.error == h.error)
            && (r.Ok? ==>
                  && r.value.Scheme() == (if isTLS then [104, 116, 116, 112, 115] else [104, 116, 116, 112])
                  && r.value.host == Lowercase(h.value) && r.value.path == PathOf(t.path)
                  && r.value.query == t.query && r.value.hash == t.hash
                  && r.value.username == [] && r.value.password == [])
  {
    hide SplitHostURI, SplitRest, PathOf, ParseHost, Index, SplitUser;
    SchemeMark(t.Text());
    TargetIsRead(t);
    SplitUserNone(host);
    LowercaseNothing();
  }

  // ---- absolute form ----

  /** What stands before the host: nothing, a name, or a name and a password. */
  datatype Userinfo = NoUser | User(name: seq<byte>) | UserPassword(name: seq<byte>, password: seq<byte>)
  {
    /** A name holds no ':' and neither part an '@'; and none of what ends the host part. */
    predicate Valid()
    {
      && (!NoUser? ==> 64 !in name && 58 !in name && 47 !in name && 63 !in name)
      && (UserPassword? ==> 64 !in password && 47 !in password && 63 !in password)
    }

    function Text(): seq<byte>
    {
      match this
      case NoUser => []
      case User(name) => name + [64]
      case UserPassword(name, password) => name + [58] + password + [64]
    }

    function Name(): seq<byte> { if NoUser? then [] else name }

    function Password(): seq<byte> { if UserPassword? then password else [] }
  }

  lemma UserinfoIsRead(u: Userinfo, host: seq<byte>)
    requires u.Valid() && (u.NoUser? ==> 64 !in host)
    ensures SplitUser(u.Text() + host) == (u.Name(), u.Password(), host)
  {
    hide SplitUser;
    match u
    case NoUser =>
      UserIsRead([], [], host);
      assert [] + host == host;
    case User(name) =>
      UserIsRead(name, [], host);
      assert u.Text() + host == name + ([AT] + host);
    case UserPassword(name, password) =>
      UserIsRead(name, password, host);
      assert u.Text() + host == name + ([COLON] + password) + ([AT] + host);
  }

  /** Where things stand in an absolute URI. */
  lemma AbsoluteText(scheme: seq<byte>, tail: seq<byte>)
    ensures var uri, n := scheme + COLON_SLASH_SLASH + tail, |scheme| + 1;
            && |uri| == n + 2 + |tail| && uri[..n] == scheme + [COLON] && uri[..n - 1] == scheme && uri[n + 2..] == tail
            && uri[n - 1] == 58 && uri[n] == 47 && uri[n + 1] == 47
  {
  }

  /** Scheme, host part and the rest, which begins with the first '/' or '?' and is "/" if there is none. */
  lemma AbsoluteIsSplit(host: seq<byte>, scheme: seq<byte>, part: seq<byte>, rest: seq<byte>)
    requires 47 !in scheme && 47 !in part && 63 !in part && (rest != [] ==> rest[0] == 47 || rest[0] == 63)
    ensures SplitUri(host, scheme + COLON_SLASH_SLASH + part + rest) == (scheme, part, if rest == [] then [47] else rest)
  {
    hide Index, IndexByte, SplitHostURI;
    var uri := scheme + COLON_SLASH_SLASH + (part + rest);
    assert scheme + COLON_SLASH_SLASH + part + rest == uri;
    AbsoluteText(scheme, part + rest);
    MarkAt(uri, |scheme|);
    SchemeMark(uri);
    AfterMark(host, scheme, part, rest);
  }

  lemma MarkAt(uri: seq<byte>, i: nat)
    requires i + 2 < |uri| && uri[i] == 58 && uri[i + 1] == 47 && uri[i + 2] == 47
    ensures HasSchemeMark(uri)
  {
  }

  lemma AfterMark(host: seq<byte>, scheme: seq<byte>, part: seq<byte>, rest: seq<byte>)
    requires 47 !in scheme && 47 !in part && 63 !in part && (rest != [] ==> rest[0] == 47 || rest[0] == 63)
    ensures SplitHostURI(host, scheme + COLON_SLASH_SLASH + (part + rest)) == (scheme, part, if rest == [] then [47] else rest)
  {
    hide Index, IndexByte;
    var n := |scheme| + 1;
    AbsoluteText(scheme, part + rest);
    FirstSlashes(scheme, part + rest);
    IndexByteIs(scheme + [COLON], SLASH, -1);
    PartEnds(part, rest);
  }

  lemma PartEnds(part: seq<byte>, rest: seq<byte>)
    requires 47 !in part && 63 !in part && (rest != [] ==> rest[0] == 47 || rest[0] == 63)
    ensures var tail := part + rest;
            var n, nq := IndexByte(tail, SLASH), IndexByte(tail, QUESTION);
            && (rest == [] ==> n < 0 && nq < 0 && tail == part)
            && (rest != [] && rest[0] == 47 ==> n == |part| && (nq < 0 || nq > n))
            && (rest != [] && rest[0] == 63 ==> nq == |part| && (n < 0 || n > nq))
            && tail[..|part|] == part && tail[|part|..] == rest
  {
    hide IndexByte;
    var tail := part + rest;
    assert forall k :: 0 <= k < |part| ==> tail[k] == part[k];
    if rest != [] {
      assert tail[|part|] == rest[0];
    }
  }

  /** scheme :// userinfo host target: whatever Host was given, all parts are read from the URI. */
  lemma AbsoluteForm(given: seq<byte>, scheme: seq<byte>, u: Userinfo, host: seq<byte>, t: Target, isTLS: bool)
    requires 47 !in scheme && u.Valid() && 47 !in host && 63 !in host && (u.NoUser? ==> 64 !in host)
    requires t.Valid() && (if t.path == [] then t.hasQuery || !t.hasHash else t.path[0] == 47)
    requires !Control(scheme + COLON_SLASH_SLASH + (u.Text() + host) + t.Text())
    ensures var r, h := Parse(given, scheme + COLON_SLASH_SLASH + (u.Text() + host) + t.Text(), isTLS), ParseHost(host);
            && (r.Ok? <==> h.Ok?) && (r.Err? ==> r.error == h.error)
            && (r.Ok? ==>
                  && r.value.scheme == (if isTLS then [104, 116, 116, 112, 115] else Lowercase(scheme))
                  && r.value.host == Lowercase(h.value) && r.value.path == PathOf(t.path)
                  && r.value.query == t.query && r.value.hash == t.hash
                  && r.value.username == u.Name() && r.value.password == u.Password())
  {
    hide SplitUri, SplitRest, PathOf, ParseHost, SplitUser, Lowercase;
    var part, rest := u.Text() + host, t.Text();
    AbsoluteIsSplit(given, scheme, part, rest);
    UserinfoIsRead(u, host);
    TargetIsRead(t);
    if rest == [] {
      TargetIsRead(Target([47], false, [], false, []));
      assert Target([47], false, [], false, []).Text() == [47];
      NoPathIsRoot();
    }
  }

  lemma NoPathIsRoot()
    ensures PathOf([]) == PathOf([47])
  {
    var s: seq<byte> := [47];
    assert Decode(s, false) == [47] + Decode(s[1..], false);
    assert Rooted(s) == s == Rooted([]);
  }

  // ---- neither a host nor a scheme ----

  /** With no Host given and no "//" but behind a slash: http, no host, and the URI is the target. */
  lemma NoHost(t: Target, isTLS: bool)
    requires t.Valid() && !Control(t.Text())
    requires var uri := t.Text(); forall i :: 0 <= i < |uri| - 1 && uri[i] == 47 && uri[i + 1] == 47 ==> 47 in uri[..i]
    ensures var r := Parse([], t.Text(), isTLS);
            && r.Ok? && r.value.Scheme() == (if isTLS then [104, 116, 116, 112, 115] else [104, 116, 116, 112])
            && r.value.host == [] && r.value.path == PathOf(t.path)
            && r.value.query == t.query && r.value.hash == t.hash
            && r.value.username == [] && r.value.password == []
  {
    hide Index, IndexByte, SplitRest, PathOf, SplitUser, ParseHost;
    var uri := t.Text();
    var n := Index(uri, SLASH_SLASH);
    if n >= 0 {
      InnerByte(uri, SLASH_SLASH, n, n);
      InnerByte(uri, SLASH_SLASH, n, n + 1);
      assert uri[n] == 47 && uri[n + 1] == 47;
      assert 47 in uri[..n];
    }
    TargetIsRead(t);
    SplitUserNone([]);
    EmptyHost();
    LowercaseNothing();
    HttpsText();
    LowerFixed(HTTP);
  }

  lemma EmptyHost()
    ensures ParseHost([]) == Ok([])
  {
    DecodeNothing(false);
  }

  // ---- hosts ----

  /** s is written with the bytes and escapes that its part of a host allows, and means t. */
  ghost predicate Unescapes(s: seq<byte>, mode: Encoding, t: seq<byte>)
  {
    exists ps :: Reading(s, mode, t, ps)
  }

  predicate Digits(s: seq<byte>)
  {
    forall i :: 0 <= i < |s| ==> 48 <= s[i] <= 57
  }

  /** Nothing, or ':' and digits. */
  predicate Port(s: seq<byte>)
  {
    s == [] || (s[0] == 58 && Digits(s[1..]))
  }

  lemma PortIsValid(s: seq<byte>)
    ensures ValidOptionalPort(s) <==> Port(s)
  {
    if s != [] {
      assert forall k :: 1 <= k < |s| ==> s[k] == s[1..][k - 1];
    }
  }

  /** A host without brackets: no ':', or digits behind the last one. */
  ghost predicate Name(host: seq<byte>)
  {
    && (host == [] || host[0] != 91)
    && (58 !in host || exists i :: 0 <= i < |host| && host[i] == 58 && Digits(host[i + 1..]))
  }

  /** host is front ] port, with '[' in front. */
  ghost predicate Bracketed(host: seq<byte>, i: nat)
  {
    && i < |host| && host[0] == 91 && host[i] == 93 && 93 !in host[i + 1..] && Port(host[i + 1..])
  }

  /** "%25" first stands at z of the first i bytes: a zone. */
  predicate ZoneAt(host: seq<byte>, i: nat, z: nat)
    requires i <= |host|
  {
    OccursAt(host[..i], [37, 50, 53], z) && forall k :: 0 <= k < z ==> !OccursAt(host[..i], [37, 50, 53], k)
  }

  /** A zone may hold escapes that the rest of a host may not. */
  ghost predicate Zoned(host: seq<byte>, i: nat, z: nat, t: seq<byte>, a: nat, b: nat)
  {
    && z <= i <= |host| && a <= b <= |t| && ZoneAt(host, i, z)
    && Unescapes(host[..z], EncodeHost, t[..a])
    && Unescapes(host[z..i], EncodeZone, t[a..b])
    && Unescapes(host[i..], EncodeHost, t[b..])
  }

  /** What a host is, and which bytes it names. */
  ghost predicate HostReads(host: seq<byte>, t: seq<byte>)
  {
    || (Name(host) && Unescapes(host, EncodeHost, t))
    || (exists i :: Bracketed(host, i)
                    && if exists z :: ZoneAt(host, i, z) then exists z, a, b :: Zoned(host, i, z, t, a, b)
                       else Unescapes(host, EncodeHost, t))
  }

  lemma NameIs(host: seq<byte>)
    requires host == [] || host[0] != 91
    ensures var i := LastIndexByte(host, COLON); Name(host) <==> i == -1 || ValidOptionalPort(host[i..])
  {
    hide LastIndexByte, ValidOptionalPort;
    var i := LastIndexByte(host, COLON);
    if i >= 0 {
      PortIsValid(host[i..]);
      assert host[i..][1..] == host[i + 1..];
      if Name(host) {
        var j :| 0 <= j < |host| && host[j] == 58 && Digits(host[j + 1..]);
        assert forall k :: j < k < |host| ==> host[k] == host[j + 1..][k - j - 1];
        assert j == i;
      }
    }
  }

  lemma BracketIs(host: seq<byte>, i: nat)
    requires host != [] && host[0] == 91
    ensures Bracketed(host, i) <==> i == LastIndexByte(host, CLOSE_BRACKET) && ValidOptionalPort(host[i + 1..])
  {
    hide LastIndexByte, ValidOptionalPort;
    if i < |host| {
      PortIsValid(host[i + 1..]);
      var j := LastIndexByte(host, CLOSE_BRACKET);
      assert forall k :: i < k < |host| ==> host[k] == host[i + 1..][k - i - 1];
    }
  }

  lemma ZoneIs(host: seq<byte>, i: nat, z: nat)
    requires i <= |host|
    ensures ZoneAt(host, i, z) <==> Index(host[..i], PERCENT_25) == z
  {
    hide Index;
    assert PERCENT_25 == [37, 50, 53];
  }

  /** parseHost succeeds with t if and only if the host is a name with an optional port, or an address in brackets with an
      optional zone and an optional port, in the bytes and escapes allowed there, that means t. */
  lemma ParseHostExactly(host: seq<byte>, t: seq<byte>)
    ensures ParseHost(host) == Ok(t) <==> HostReads(host, t)
  {
    hide LastIndexByte, Index, Unescape, ValidOptionalPort, Name, Bracketed, Unescapes, ZoneAt, ParseZoned;
    UnescapeExactly(host, EncodeHost, t);
    UnescapesIs(host, EncodeHost, t);
    if host == [] || host[0] != 91 {
      NameIs(host);
      NoBracket(host);
    } else {
      var i := LastIndexByte(host, CLOSE_BRACKET);
      NoName(host);
      forall k: nat
        ensures Bracketed(host, k) <==> k == i && ValidOptionalPort(host[k + 1..])
      {
        BracketIs(host, k);
      }
      if i >= 0 && ValidOptionalPort(host[i + 1..]) {
        forall z: nat
          ensures ZoneAt(host, i, z) <==> Index(host[..i], PERCENT_25) == z
        {
          ZoneIs(host, i, z);
        }
        var z := Index(host[..i], PERCENT_25);
        assert Bracketed(host, i);
        if z >= 0 {
          assert ZoneAt(host, i, z);
          ZonedExactly(host, z, i, t);
        }
      }
    }
  }

  lemma UnescapesIs(s: seq<byte>, mode: Encoding, t: seq<byte>)
    ensures Unescape(s, mode) == Ok(t) <==> Unescapes(s, mode, t)
  {
    hide Unescape, Reading;
    UnescapeExactly(s, mode, t);
  }

  lemma NoBracket(host: seq<byte>)
    requires host == [] || host[0] != 91
    ensures forall i: nat :: !Bracketed(host, i)
  {
  }

  lemma NoName(host: seq<byte>)
    requires host != [] && host[0] == 91
    ensures !Name(host)
  {
  }

  lemma ZonedExactly(host: seq<byte>, z: nat, i: nat, t: seq<byte>)
    requires z <= i <= |host| && ZoneAt(host, i, z)
    ensures ParseZoned(host, z, i) == Ok(t) <==> exists a: nat, b: nat :: Zoned(host, i, z, t, a, b)
  {
    hide Unescape, Unescapes, ZoneAt;
    if ParseZoned(host, z, i) == Ok(t) {
      var h1, h2, h3 := Unescape(host[..z], EncodeHost).value, Unescape(host[z..i], EncodeZone).value, Unescape(host[i..], EncodeHost).value;
      var a, b := |h1|, |h1| + |h2|;
      assert t[..a] == h1 && t[a..b] == h2 && t[b..] == h3;
      UnescapesIs(host[..z], EncodeHost, h1);
      UnescapesIs(host[z..i], EncodeZone, h2);
      UnescapesIs(host[i..], EncodeHost, h3);
      assert Zoned(host, i, z, t, a, b);
    }
    if a: nat, b: nat :| Zoned(host, i, z, t, a, b) {
      UnescapesIs(host[..z], EncodeHost, t[..a]);
      UnescapesIs(host[z..i], EncodeZone, t[a..b]);
      UnescapesIs(host[i..], EncodeHost, t[b..]);
      assert t[..a] + t[a..b] + t[b..] == t;
    }
  }

  /** The bytes that may stand in a host as they are: letters, digits, - . _ ~ and ! " $ & ' ( ) * + , : ; < = > [ ], and
      everything that is not ASCII. */
  lemma HostBytes(c: byte)
    ensures HostByte(c) <==>
              || c >= 128 || Unreserved(c)
              || c in {33, 34, 36, 38, 39, 40, 41, 42, 43, 44, 58, 59, 60, 61, 62, 91, 93}
  {
  }
}
