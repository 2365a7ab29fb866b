/** Whole header blocks: what the scanner and readRawHeaders make of them, and what printing writes. */
module HeaderProofs {
  import opened Bytes
  import opened Ledger
  import opened Headers

  datatype HeaderField = HeaderField(key: seq<byte>, value: seq<byte>)

  /** The fields of a block and its length with the empty line, or why it was refused. */
  datatype Block = Block(fields: seq<HeaderField>, used: nat) | Refused(error: HeaderError)

  function ScanBlock(b: seq<byte>, normalize: bool): Block
    decreases |b|
  {
    match ScanLine(b, normalize)
    case End(n) => Block([], n)
    case Fail(e) => Refused(e)
    case Field(k, v, n) =>
      match ScanBlock(b[n..], normalize)
      case Refused(e) => Refused(e)
      case Block(fields, m) => Block([HeaderField(k, v)] + fields, n + m)
  }

  /** No value in the block is folded. */
  ghost predicate Unfolded(b: seq<byte>)
    decreases |b|
  {
    var scan := ScanLine(b, true);
    scan.Field? ==> !Folds(b) && Unfolded(b[scan.used..])
  }

  lemma SameLines(b: seq<byte>, normalize: bool)
    ensures ScanLine(b, true).Field? <==> ScanLine(b, normalize).Field?
    ensures ScanLine(b, true).Field? ==> ScanLine(b, true).used == ScanLine(b, normalize).used
  {
  }

  /** The loop `for s.next()` of the header parsers. */
  method Scan(b: seq<byte>, normalize: bool) returns (fields: seq<HeaderField>, hLen: nat, err: Option<HeaderError>)
    requires Unfolded(b)
    ensures match ScanBlock(b, normalize)
            case Block(fs, n) => err.None? && fields == fs && hLen == n
            case Refused(e) => err == Some(e)
  {
    hide ScanLine, Folds;
    var s := new HeaderScanner(b, normalize);
    fields := [];
    while true
      invariant s.Valid() && s.err.None? && s.normalize == normalize && Unfolded(s.b)
      invariant Joined(fields, s.hLen, ScanBlock(s.b, normalize)) == ScanBlock(b, normalize)
      decreases |s.b|
    {
      ghost var before := s.b;
      SameLines(before, normalize);
      var more, folded := s.Next();
      if !more {
        return fields, s.hLen, s.err;
      }
      JoinedOne(fields, HeaderField(s.key, s.value), ScanBlock(s.b, normalize));
      fields := fields + [HeaderField(s.key, s.value)];
    }
  }

  /** What was scanned so far, and the scan of what follows. */
  function Joined(fields: seq<HeaderField>, n: nat, b: Block): Block
  {
    if b.Refused? then b else Block(fields + b.fields, n + b.used)
  }

  lemma JoinedOne(fields: seq<HeaderField>, f: HeaderField, b: Block)
    ensures b.Block? ==> fields + ([f] + b.fields) == fields + [f] + b.fields
  {
  }

  // ---- readRawHeaders ----

  /** The length of a block up to and with its empty line, if that has arrived. */
  function RawLength(buf: seq<byte>): (n: Option<nat>)
    ensures n.Some? ==> 0 < n.value <= |buf|
    decreases |buf|
  {
    var n := IndexByte(buf, LF);
    if n < 0 then None
    else if n == 0 || (n == 1 && buf[0] == CR) then Some(n + 1)
    else
      var more := RawLength(buf[n + 1..]);
      if more.None? then None else Some(n + 1 + more.value)
  }

  /** The length of the whole block, told from a line that begins at n. */
  function RawFrom(buf: seq<byte>, n: nat): (len: Option<nat>)
    requires n <= |buf|
    ensures len.Some? ==> len.value <= |buf|
  {
    var more := RawLength(buf[n..]);
    if more.None? then None else Some(n + more.value)
  }

  lemma RawStep(buf: seq<byte>, n: nat)
    requires n <= |buf|
    ensures var m := IndexByte(buf[n..], LF);
            && n + m < |buf|
            && RawFrom(buf, n) == if m < 0 then None
                                  else if m == 0 || (m == 1 && buf[n] == CR) then Some(n + m + 1)
                                  else RawFrom(buf, n + m + 1)
  {
    hide IndexByte;
    var b := buf[n..];
    var m := IndexByte(b, LF);
    if m >= 0 {
      assert b[m + 1..] == buf[n + m + 1..];
      assert b[0] == buf[n];
    }
  }

  lemma RawFromStart(buf: seq<byte>)
    ensures buf[0..] == buf && RawFrom(buf, 0) == RawLength(buf)
  {
  }

  lemma BehindLine(buf: seq<byte>, n: nat, m: nat)
    requires n + m <= |buf|
    ensures buf[n..][m..] == buf[n + m..]
  {
  }

  method ReadRawHeaders(dst: seq<byte>, buf: seq<byte>) returns (r: seq<byte>, n: nat, err: Option<HeaderError>)
    ensures RawLength(buf).None? ==> err == Some(NeedMore) && n == 0 && r == if LF in buf then dst else []
    ensures RawLength(buf).Some? ==>
              && err.None? && n == RawLength(buf).value
              && r == if IndexByte(buf, LF) == n - 1 then dst else dst + buf[..n]
  {
    hide IndexByte, RawLength, RawFrom;
    var m := IndexByte(buf, LF);
    RawFromStart(buf);
    RawStep(buf, 0);
    if m < 0 {
      return [], 0, Some(NeedMore);
    }
    if (m == 1 && buf[0] == CR) || m == 0 {
      return dst, m + 1, None;
    }
    m := m + 1;
    n := m;
    var b := buf;
    while true
      invariant 0 < m <= |b| && n <= |buf| && b[m..] == buf[n..]
      invariant RawLength(buf) == RawFrom(buf, n)
      decreases |buf| - n
    {
      b := b[m..];
      RawStep(buf, n);
      m := IndexByte(b, LF);
      if m < 0 {
        return dst, 0, Some(NeedMore);
      }
      BehindLine(buf, n, m + 1);
      m := m + 1;
      n := n + m;
      if (m == 2 && b[0] == CR) || m == 1 {
        return dst + buf[..n], n, None;
      }
    }
  }

  /** A block without folds that the scanner accepts ends where readRawHeaders says it ends. */
  lemma {:induction false} SameLength(b: seq<byte>, normalize: bool)
    requires ScanBlock(b, normalize).Block?
    ensures RawLength(b) == Some(ScanBlock(b, normalize).used)
    decreases |b|
  {
    hide ScanLine, RawLength;
    var scan := ScanLine(b, normalize);
    RawOfLine(b, normalize);
    if scan.Field? {
      SameLength(b[scan.used..], normalize);
    }
  }

  /** What the first line of an accepted block adds to its length. */
  lemma RawOfLine(b: seq<byte>, normalize: bool)
    requires !ScanLine(b, normalize).Fail?
    ensures var scan := ScanLine(b, normalize);
            && scan.used <= |b|
            && RawLength(b) == if scan.End? then Some(scan.used)
                               else var more := RawLength(b[scan.used..]);
                                    if more.None? then None else Some(scan.used + more.value)
  {
    hide IndexByte, ScanLine, RawLength;
    LineUsed(b, normalize);
    RawFromStart(b);
    RawStep(b, 0);
  }

  /** The scan of a line uses it up to its newline, and ends at the empty line. */
  lemma LineUsed(b: seq<byte>, normalize: bool)
    requires !ScanLine(b, normalize).Fail?
    ensures var scan, x := ScanLine(b, normalize), IndexByte(b, LF);
            && 0 <= x < |b| && scan.used == x + 1 && (scan.End? <==> x == 0 || (x == 1 && b[0] == CR))
  {
    hide IndexByte, KeyOf, TrimLeft, TrimRight, DropCr;
  }

  /** The first n bytes of b end with an empty line, which is LF or CR LF at the beginning or behind another LF. */
  predicate EmptyLineEndsAt(b: seq<byte>, n: nat)
  {
    && 0 < n <= |b| && b[n - 1] == 10
    && (n == 1 || b[n - 2] == 10 || (b[n - 2] == 13 && (n == 2 || b[n - 3] == 10)))
  }

  /** The first empty line of b, if it has one, ends at n. */
  ghost predicate FirstEmptyLine(b: seq<byte>, n: Option<nat>)
  {
    && (n.None? ==> forall k: nat :: !EmptyLineEndsAt(b, k))
    && (n.Some? ==> EmptyLineEndsAt(b, n.value) && forall k: nat :: k < n.value ==> !EmptyLineEndsAt(b, k))
  }

  /** The raw block reaches exactly to the first empty line. */
  lemma {:induction false} RawExactly(b: seq<byte>)
    ensures FirstEmptyLine(b, RawLength(b))
    decreases |b|
  {
    hide IndexByte, RawLength, RawFrom, FirstEmptyLine;
    var x := IndexByte(b, LF);
    RawFromStart(b);
    RawStep(b, 0);
    if x < 0 || x == 0 || (x == 1 && b[0] == CR) {
      EmptyLineHere(b);
    } else {
      RawExactly(b[x + 1..]);
      RawBehind(b, x + 1);
      EmptyLineLater(b, RawLength(b[x + 1..]));
    }
  }

  /** The first line is the empty one, or there is no whole line. */
  lemma EmptyLineHere(b: seq<byte>)
    requires var x := IndexByte(b, LF); x < 0 || x == 0 || (x == 1 && b[0] == CR)
    ensures FirstEmptyLine(b, if IndexByte(b, LF) < 0 then None else Some(IndexByte(b, LF) + 1))
  {
    hide IndexByte;
  }

  /** The first line is not the empty one: look behind it. */
  lemma EmptyLineLater(b: seq<byte>, n: Option<nat>)
    requires var x := IndexByte(b, LF);
             x >= 0 && !(x == 0 || (x == 1 && b[0] == CR)) && FirstEmptyLine(b[x + 1..], n)
    ensures FirstEmptyLine(b, if n.None? then None else Some(IndexByte(b, LF) + 1 + n.value))
  {
    hide IndexByte, EmptyLineEndsAt;
    var x := IndexByte(b, LF);
    forall k: nat
      ensures EmptyLineEndsAt(b, k) <==> k > x + 1 && EmptyLineEndsAt(b[x + 1..], k - (x + 1))
    {
      if k > x + 1 {
        EmptyLineBehind(b, x, k);
      } else {
        NoEmptyLineYet(b, k);
      }
    }
    assert n.Some? ==> n.value > 0 by { if n.Some? { EmptyLineIsSome(b[x + 1..], n.value); } }
  }

  lemma NoEmptyLineYet(b: seq<byte>, k: nat)
    requires var x := IndexByte(b, LF); x >= 0 && !(x == 0 || (x == 1 && b[0] == CR)) && k <= x + 1
    ensures !EmptyLineEndsAt(b, k)
  {
    hide IndexByte;
  }

  lemma EmptyLineIsSome(b: seq<byte>, k: nat)
    requires EmptyLineEndsAt(b, k)
    ensures k > 0
  {
  }

  lemma RawBehind(b: seq<byte>, n: nat)
    requires n <= |b|
    ensures RawFrom(b, n) == if RawLength(b[n..]).None? then None else Some(n + RawLength(b[n..]).value)
  {
  }

  lemma EmptyLineBehind(b: seq<byte>, x: nat, n: nat)
    requires x + 1 < n && x < |b| && b[x] == LF
    ensures EmptyLineEndsAt(b, n) <==> EmptyLineEndsAt(b[x + 1..], n - (x + 1))
  {
    var rest := b[x + 1..];
    assert forall k :: 0 <= k < |rest| ==> rest[k] == b[x + 1 + k];
  }

  // ---- lines as they come ----

  /** The bytes begin with the empty line. */
  predicate StartsEmpty(b: seq<byte>)
  {
    (|b| >= 1 && b[0] == 10) || (|b| >= 2 && b[0] == 13 && b[1] == 10)
  }

  /** There is a ':' with no LF before it. */
  predicate HasName(b: seq<byte>)
  {
    exists i :: 0 <= i < |b| && b[i] == 58 && 10 !in b[..i]
  }

  /** Which of its four answers the scanner gives: the end exactly at the empty line; a field exactly for a ':' in a
      line that is complete; a bad name exactly if the first ':' stands in a later line; else it needs more. */
  lemma ScanExactly(b: seq<byte>, normalize: bool)
    ensures var scan := ScanLine(b, normalize);
            && (scan.End? <==> StartsEmpty(b)) && (scan.End? ==> scan.used == if b[0] == 10 then 1 else 2)
            && (scan.Field? <==> !StartsEmpty(b) && 10 in b && HasName(b))
            && (scan == Fail(InvalidName) <==> !StartsEmpty(b) && 10 in b && 58 in b && !HasName(b))
            && (scan == Fail(NeedMore) <==> !StartsEmpty(b) && (10 !in b || 58 !in b))
  {
    hide IndexByte, KeyOf, TrimLeft, TrimRight, DropCr;
    var x, c := IndexByte(b, LF), IndexByte(b, COLON);
    FirstLine(b);
    if c >= 0 {
      assert 58 in b;
      if x < 0 || c < x { assert 10 !in b[..c]; }
      if HasName(b) {
        var i :| 0 <= i < |b| && b[i] == 58 && 10 !in b[..i];
        assert forall k :: 0 <= k < i ==> b[k] == b[..i][k];
        assert c <= i;
      }
    }
  }

  predicate Blanks(s: seq<byte>)
  {
    forall i :: 0 <= i < |s| ==> s[i] == 32 || s[i] == 9
  }

  lemma {:induction false} BlanksGoRight(v: seq<byte>, post: seq<byte>)
    requires Blanks(post) && (v != [] ==> v[|v| - 1] != 32 && v[|v| - 1] != 9)
    ensures TrimRight(v + post) == v
    decreases |post|
  {
    if post == [] {
      assert v + post == v;
    } else {
      BlanksGoRight(v, post[..|post| - 1]);
      assert (v + post)[..|v + post| - 1] == v + post[..|post| - 1];
    }
  }

  lemma BlanksGo(pre: seq<byte>, v: seq<byte>, post: seq<byte>, cr: bool)
    requires Blanks(pre) && Blanks(post)
    requires v != [] ==> v[0] != 32 && v[0] != 9 && v[|v| - 1] != 32 && v[|v| - 1] != 9
    requires cr || post != [] || v == [] || v[|v| - 1] != 13
    ensures TrimRight(DropCr(TrimLeft(pre + (v + post + (if cr then [CR] else []))))) == v
  {
    hide TrimLeft, TrimRight;
    var end: seq<byte> := if cr then [CR] else [];
    var raw := pre + (v + post + end);
    if v != [] {
      TrimmedTo(raw, |pre|);
      assert raw[|pre|..] == v + post + end;
      assert DropCr(v + post + end) == v + post;
      BlanksGoRight(v, post);
    } else {
      TrimmedTo(raw, |pre| + |post|);
      assert raw[|pre| + |post|..] == end;
      BlanksGoRight(v, v);
      assert DropCr(end) == [] && v + v == v;
    }
  }

  /** Any blanks around the value, and CR LF or LF alone at the end: a line is its name, spelled canonically
      unless that is switched off, and its value. */
  lemma RawLineIsRead(key: seq<byte>, pre: seq<byte>, value: seq<byte>, post: seq<byte>, cr: bool, rest: seq<byte>, normalize: bool)
    requires 58 !in key && 10 !in key && 10 !in value && Blanks(pre) && Blanks(post)
    requires value != [] ==> value[0] != 32 && value[0] != 9 && value[|value| - 1] != 32 && value[|value| - 1] != 9
    requires cr || post != [] || value == [] || value[|value| - 1] != 13
    ensures var line := key + [COLON] + (pre + (value + post + (if cr then [CR] else []))) + [LF];
            ScanLine(line + rest, normalize) == Field(KeyOf(key, normalize), value, |line|)
    ensures if normalize then Spelled(key, KeyOf(key, normalize)) else KeyOf(key, normalize) == key
  {
    hide IndexByte, TrimLeft, TrimRight, DropCr, Canonical, Spelled;
    CanonicalIsSpelled(key);
    var raw := pre + (value + post + (if cr then [CR] else []));
    var line := key + [COLON] + raw + [LF];
    var b := line + rest;
    BlanksGo(pre, value, post, cr);
    assert 10 !in raw;
    FirstAt(key, COLON, raw + [LF] + rest);
    assert b == key + ([COLON] + (raw + [LF] + rest));
    FirstAt(key + [COLON] + raw, LF, rest);
    assert b == (key + [COLON] + raw) + ([LF] + rest);
    assert b[..|key|] == key && b[|key| + 1..|line| - 1] == raw;
    assert b[|key|] == COLON;
  }

  lemma FirstAt(a: seq<byte>, c: byte, t: seq<byte>)
    requires c !in a
    ensures IndexByte(a + ([c] + t), c) == |a|
  {
    hide IndexByte;
    var s := a + ([c] + t);
    assert s[|a|] == c;
    assert forall k :: 0 <= k < |a| ==> s[k] == a[k];
  }

  // ---- printing ----

  function HeaderLine(key: seq<byte>, value: seq<byte>): seq<byte>
  {
    key + ([COLON, SPACE] + (value + CRLF))
  }

  ghost predicate Writable(key: seq<byte>, value: seq<byte>)
  {
    COLON !in key && LF !in key && LF !in value && Unpadded(value)
  }

  ghost predicate Unpadded(value: seq<byte>)
  {
    value != [] ==> !Blank(value[0]) && !Blank(value[|value| - 1])
  }

  lemma {:induction false} TrimLeftShortens(v: seq<byte>)
    ensures (TrimLeft(v) == v || |TrimLeft(v)| < |v|) && (TrimLeft(v) == v <==> v == [] || !Blank(v[0]))
  {
    if v != [] && Blank(v[0]) {
      TrimLeftShortens(v[1..]);
    }
  }

  lemma {:induction false} TrimRightShortens(v: seq<byte>)
    ensures |TrimRight(v)| <= |v| && (TrimRight(v) == v <==> v == [] || !Blank(v[|v| - 1]))
  {
    if v != [] && Blank(v[|v| - 1]) {
      TrimRightShortens(v[..|v| - 1]);
    }
  }

  lemma {:induction false} TrimLeftBefore(v: seq<byte>, c: byte)
    requires !Blank(c)
    ensures TrimLeft(v + [c]) == TrimLeft(v) + [c]
  {
    if v != [] && Blank(v[0]) {
      assert (v + [c])[1..] == v[1..] + [c];
      TrimLeftBefore(v[1..], c);
    }
  }

  lemma ValueIsRead(v: seq<byte>)
    ensures TrimRight(DropCr(TrimLeft([SPACE] + (v + [CR])))) == v <==> Unpadded(v)
  {
    hide TrimLeft, TrimRight;
    assert TrimLeft([SPACE] + (v + [CR])) == TrimLeft(v) + [CR] by {
      SkipSpace(v + [CR]);
      TrimLeftBefore(v, CR);
    }
    assert DropCr(TrimLeft(v) + [CR]) == TrimLeft(v);
    TrimLeftShortens(v);
    TrimRightShortens(TrimLeft(v));
  }

  lemma SkipSpace(v: seq<byte>)
    ensures TrimLeft([SPACE] + v) == TrimLeft(v)
  {
    assert ([SPACE] + v)[1..] == v;
  }

  /** Where the searches find the end and the ':' of a printed line. */
  lemma LineEnds(key: seq<byte>, value: seq<byte>, rest: seq<byte>)
    ensures var line := HeaderLine(key, value);
            var x := IndexByte(line + rest, LF);
            0 <= x < |line| && (x == |line| - 1 <==> LF !in key && LF !in value)
  {
    hide IndexByte;
    var line := HeaderLine(key, value);
    var b := line + rest;
    var x := IndexByte(b, LF);
    assert b[|line| - 1] == LF;
    if x < |line| - 1 {
      assert line[x] == LF;
      assert LF in key || LF in value;
    } else {
      assert forall i :: 0 <= i < |key| ==> b[i] == key[i];
      assert forall i :: 0 <= i < |value| ==> b[|key| + 2 + i] == value[i];
    }
  }

  lemma LineColon(key: seq<byte>, value: seq<byte>, rest: seq<byte>)
    ensures var c := IndexByte(HeaderLine(key, value) + rest, COLON);
            0 <= c <= |key| && (c == |key| <==> COLON !in key)
  {
    hide IndexByte;
    var b := HeaderLine(key, value) + rest;
    assert b[|key|] == COLON;
    assert forall i :: 0 <= i < |key| ==> b[i] == key[i];
  }

  lemma LineParts(key: seq<byte>, value: seq<byte>, rest: seq<byte>)
    ensures var line := HeaderLine(key, value);
            && |line| == |key| + |value| + 4 && (line + rest)[..|key|] == key
            && (line + rest)[|key| + 1..|line| - 1] == [SPACE] + (value + [CR])
            && (line + rest)[|key|] == COLON
  {
    var line := HeaderLine(key, value);
    assert line == key + [COLON] + ([SPACE] + (value + [CR])) + [LF];
  }

  /** A printed line is read back, whatever follows it, exactly when name and value are writable. */
  lemma LineRoundTrip(key: seq<byte>, value: seq<byte>, rest: seq<byte>, normalize: bool)
    ensures ScanLine(HeaderLine(key, value) + rest, normalize) == Field(KeyOf(key, normalize), value, |HeaderLine(key, value)|)
            <==> Writable(key, value)
  {
    hide IndexByte, TrimLeft, TrimRight, DropCr, Unpadded, Canonical, HeaderLine;
    LineEnds(key, value, rest);
    LineColon(key, value, rest);
    LineParts(key, value, rest);
    ValueIsRead(value);
  }

  /** The scanner reads the appended line back, whatever follows it, exactly when name and value are writable. */
  method AppendHeaderLine(dst: seq<byte>, key: seq<byte>, value: seq<byte>) returns (r: seq<byte>)
    ensures r == dst + HeaderLine(key, value)
    ensures forall rest, normalize :: ScanLine(r[|dst|..] + rest, normalize) == Field(KeyOf(key, normalize), value, |r| - |dst|)
                                      <==> Writable(key, value)
  {
    hide ScanLine, KeyOf, Writable;
    r := dst + key;
    r := r + [COLON, SPACE];
    r := r + value;
    r := r + CRLF;
    assert r == dst + HeaderLine(key, value) && r[|dst|..] == HeaderLine(key, value);
    forall rest, normalize
      ensures ScanLine(r[|dst|..] + rest, normalize) == Field(KeyOf(key, normalize), value, |r| - |dst|) <==> Writable(key, value)
    {
      LineRoundTrip(key, value, rest, normalize);
    }
  }

  function Print(fields: seq<HeaderField>): seq<byte>
  {
    if fields == [] then [] else HeaderLine(fields[0].key, fields[0].value) + Print(fields[1..])
  }

  function WithKeys(fields: seq<HeaderField>, normalize: bool): seq<HeaderField>
  {
    if fields == [] then []
    else [HeaderField(KeyOf(fields[0].key, normalize), fields[0].value)] + WithKeys(fields[1..], normalize)
  }

  /** t does not continue the line before it: it starts with no blank, or its first line has a ':'. */
  ghost predicate StartsAnew(t: seq<byte>)
  {
    t != [] && (Blank(t[0]) ==> 0 <= IndexByte(t, COLON) < IndexByte(t, LF))
  }

  lemma EmptyLineStarts(body: seq<byte>)
    ensures StartsAnew(CRLF + body)
  {
    hide IndexByte;
    assert (CRLF + body)[0] == CR;
  }

  lemma LineStarts(key: seq<byte>, value: seq<byte>, rest: seq<byte>)
    requires Writable(key, value)
    ensures StartsAnew(HeaderLine(key, value) + rest)
  {
    hide IndexByte, HeaderLine;
    LineEnds(key, value, rest);
    LineColon(key, value, rest);
    LineParts(key, value, rest);
  }

  lemma Regroup(a: seq<byte>, b: seq<byte>, c: seq<byte>)
    ensures (a + b) + c == a + (b + c) && (a + (b + c))[|a|..] == b + c && [] + c == c
  {
  }

  /** The print of a list, with what follows, is its first line and the print of the others with what follows. */
  lemma PrintFirst(fields: seq<HeaderField>, tail: seq<byte>)
    ensures fields == [] ==> Print(fields) == [] && Print(fields) + tail == tail
    ensures fields != [] ==>
              var line := HeaderLine(fields[0].key, fields[0].value);
              var b := Print(fields) + tail;
              && |Print(fields)| == |line| + |Print(fields[1..])|
              && b == line + (Print(fields[1..]) + tail) && b[|line|..] == Print(fields[1..]) + tail
  {
    hide HeaderLine;
    if fields == [] {
      Regroup([], [], tail);
    } else {
      Regroup(HeaderLine(fields[0].key, fields[0].value), Print(fields[1..]), tail);
    }
  }

  /** What follows a printed line is another one, or the empty line. */
  lemma PrintedStart(fields: seq<HeaderField>, body: seq<byte>)
    requires forall i :: 0 <= i < |fields| ==> Writable(fields[i].key, fields[i].value)
    ensures StartsAnew(Print(fields) + (CRLF + body))
  {
    hide StartsAnew, Writable, HeaderLine, Print;
    PrintFirst(fields, CRLF + body);
    if fields == [] {
      EmptyLineStarts(body);
    } else {
      LineStarts(fields[0].key, fields[0].value, Print(fields[1..]) + (CRLF + body));
    }
  }

  lemma FieldHasColon(b: seq<byte>, normalize: bool)
    requires ScanLine(b, normalize).Field?
    ensures b != [] && 0 <= IndexByte(b, COLON) < IndexByte(b, LF) == ScanLine(b, normalize).used - 1
  {
    SameByte(b);
  }

  lemma NotFolded(b: seq<byte>, normalize: bool)
    requires ScanLine(b, normalize).Field?
    requires StartsAnew(b[ScanLine(b, normalize).used..])
    ensures !Folds(b)
  {
    hide IndexByte, KeyOf, ScanLine;
    FieldHasColon(b, normalize);
    var n := IndexByte(b, LF);
    var t := b[n + 1..];
    assert b[n + 1] == t[0];
    if Blank(t[0]) {
      var c, d := IndexByte(t, COLON), IndexByte(t, LF);
      assert b[n + 1..n + 1 + d][c] == t[c];
    }
  }

  /** Every list of writable fields is read back from its print, without a fold, with the length of the print;
      readRawHeaders reports the same length. */
  lemma {:induction false} BlockRoundTrip(fields: seq<HeaderField>, body: seq<byte>, normalize: bool)
    requires forall i :: 0 <= i < |fields| ==> Writable(fields[i].key, fields[i].value)
    ensures var b, n := Print(fields) + (CRLF + body), |Print(fields)| + 2;
            && ScanBlock(b, normalize) == Block(WithKeys(fields, normalize), n)
            && Unfolded(b) && RawLength(b) == Some(n)
    decreases |fields|
  {
    hide IndexByte, KeyOf, Folds, RawLength, Writable, HeaderLine, ScanLine, StartsAnew, Print;
    var b := Print(fields) + (CRLF + body);
    PrintFirst(fields, CRLF + body);
    if fields == [] {
      EmptyLine(body, true);
      EmptyLine(body, normalize);
    } else {
      var f := fields[0];
      var rest := Print(fields[1..]) + (CRLF + body);
      LineRoundTrip(f.key, f.value, rest, true);
      LineRoundTrip(f.key, f.value, rest, normalize);
      BlockRoundTrip(fields[1..], body, normalize);
      PrintedStart(fields[1..], body);
      NotFolded(b, true);
    }
    SameLength(b, normalize);
  }

  /** Whatever the scanner makes of a line has no newline in it. */
  lemma {:induction false} TrimmedHasNo(v: seq<byte>, c: byte)
    requires c !in v
    ensures c !in TrimLeft(v) && c !in TrimRight(v) && c !in DropCr(v)
  {
    if v != [] {
      TrimmedHasNo(v[1..], c);
      TrimmedHasNo(v[..|v| - 1], c);
    }
  }

  lemma KeyLength(raw: seq<byte>, normalize: bool)
    ensures |KeyOf(raw, normalize)| == |raw|
  {
  }

  /** A line that is read back as the field it was printed for, of whatever length, was writable. */
  lemma LineWasWritable(key: seq<byte>, value: seq<byte>, rest: seq<byte>, normalize: bool)
    requires var scan := ScanLine(HeaderLine(key, value) + rest, normalize);
             scan.Field? && scan.key == KeyOf(key, normalize) && scan.value == value
    ensures Writable(key, value) && ScanLine(HeaderLine(key, value) + rest, normalize).used == |HeaderLine(key, value)|
  {
    hide IndexByte, TrimLeft, TrimRight, DropCr, KeyOf, HeaderLine, Writable;
    var b := HeaderLine(key, value) + rest;
    var x, c := IndexByte(b, LF), IndexByte(b, COLON);
    LineEnds(key, value, rest);
    LineColon(key, value, rest);
    LineParts(key, value, rest);
    KeyLength(key, normalize);
    KeyLength(b[..c], normalize);
    var raw := b[c + 1..x];
    TrimmedHasNo(raw, LF);
    TrimmedHasNo(TrimLeft(raw), LF);
    TrimmedHasNo(DropCr(TrimLeft(raw)), LF);
    assert forall k :: 0 <= k < |key| ==> key[k] == b[k];
    LineRoundTrip(key, value, rest, normalize);
  }

  ghost predicate AllWritable(fields: seq<HeaderField>)
  {
    forall i :: 0 <= i < |fields| ==> Writable(fields[i].key, fields[i].value)
  }

  /** The fields are those that a scan of their print finds. */
  predicate ReadBack(fields: seq<HeaderField>, body: seq<byte>, normalize: bool)
  {
    var block := ScanBlock(Print(fields) + (CRLF + body), normalize);
    block.Block? && block.fields == WithKeys(fields, normalize)
  }

  /** A list of fields is read back from its print, whatever body follows, if and only if every field is writable: a
      name or value that would end its line or begin another one always shows. */
  lemma {:induction false} BlockExactly(fields: seq<HeaderField>, body: seq<byte>, normalize: bool)
    ensures ReadBack(fields, body, normalize) <==> AllWritable(fields)
    decreases |fields|
  {
    hide IndexByte, KeyOf, Folds, RawLength, Writable, HeaderLine, ScanLine, Print;
    if AllWritable(fields) {
      BlockRoundTrip(fields, body, normalize);
    }
    if fields != [] && ReadBack(fields, body, normalize) {
      var f, rest := fields[0], Print(fields[1..]) + (CRLF + body);
      PrintFirst(fields, CRLF + body);
      var fs := WithKeys(fields, normalize);
      assert fs[0] == HeaderField(KeyOf(f.key, normalize), f.value) && fs[1..] == WithKeys(fields[1..], normalize);
      LineWasWritable(f.key, f.value, rest, normalize);
      assert ReadBack(fields[1..], body, normalize);
      BlockExactly(fields[1..], body, normalize);
      assert forall i :: 0 < i < |fields| ==> fields[i] == fields[1..][i - 1];
    }
  }

  lemma EmptyLine(body: seq<byte>, normalize: bool)
    ensures ScanLine(CRLF + body, normalize) == End(2)
  {
    FirstLine(CRLF + body);
  }

  /** Names that are already in canonical spelling come back as they are. */
  lemma {:induction false} CanonicalFieldsStay(fields: seq<HeaderField>)
    requires forall i :: 0 <= i < |fields| ==> fields[i].key == Canonical(fields[i].key, true)
    ensures WithKeys(fields, true) == fields
  {
    hide Canonical;
    if fields != [] {
      CanonicalFieldsStay(fields[1..]);
      assert fields == [fields[0]] + fields[1..];
    }
  }
}
