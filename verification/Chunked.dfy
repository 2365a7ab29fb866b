/** The chunked transfer coding (section 7.1 of RFC 9112): writeHexInt and readHexInt, writeBodyChunked and
    readBodyChunked. */
module Chunked {
  import opened Bytes
  import opened Ledger
  import opened Escaping
  import opened Wire

  const MAX_HEX_DIGITS: nat := 15
  /** 16 to the power of MAX_HEX_DIGITS: no chunk the reader accepts is this long. */
  const CHUNK_BOUND: nat := 0x1000_0000_0000_0000
  const LAST_CHUNK: seq<byte> := ['0' as int, CR, LF]

  // ---- what the reader does, on the unread bytes ----

  datatype SizeRead = Size(n: nat, rest: seq<byte>) | BadSize(error: Error, rest: seq<byte>)

  /** readHexInt after i digits worth n. */
  function HexInt(s: seq<byte>, i: nat, n: nat): SizeRead
  {
    if s == [] then (if i > 0 then Size(n, []) else BadSize(Eof, []))
    else if HexValue(s[0]) == 16 then (if i == 0 then BadSize(EmptyHex, s[1..]) else Size(n, s))
    else if i >= MAX_HEX_DIGITS then BadSize(TooLargeHex, s[1..])
    else HexInt(s[1..], i + 1, 16 * n + HexValue(s[0]))
  }

  /** readCrLf: its error, if any, and what is left. */
  function CrLf(s: seq<byte>): (Option<Error>, seq<byte>)
  {
    if s == [] then (Some(Eof), [])
    else if s[0] != CR then (Some(BrokenChunk), s[1..])
    else if |s| == 1 then (Some(Eof), [])
    else if s[1] != LF then (Some(BrokenChunk), s[2..])
    else (None, s[2..])
  }

  /** From the first '\r' of s on. */
  function FromCr(s: seq<byte>): seq<byte>
  {
    var i := IndexByte(s, CR);
    if i < 0 then [] else s[i..]
  }

  /** parseChunkSize: the extension behind the size is skipped up to the first '\r'. */
  function ChunkSize(s: seq<byte>): SizeRead
  {
    match HexInt(s, 0, 0)
    case BadSize(e, rest) => BadSize(e, rest)
    case Size(n, rest) =>
      var end := CrLf(FromCr(rest));
      if end.0.Some? then BadSize(end.0.value, end.1) else Size(n, end.1)
  }

  /** What a reader of the body has got, how it ended, and what it left unread. */
  datatype Body = Body(data: seq<byte>, error: Option<Error>, rest: seq<byte>)

  /** readBodyChunked behind the bytes dst; a limit that is not positive is no limit. */
  function ReadChunks(s: seq<byte>, limit: int, dst: seq<byte>): Body
    decreases |s|
  {
    ChunkSizeShortens(s);
    var size := ChunkSize(s);
    if size.BadSize? then Body(dst, Some(size.error), size.rest)
    else if size.n == 0 then Body(dst, None, size.rest)
    else if limit > 0 && |dst| + size.n > limit then Body(dst, Some(BodyTooLarge), size.rest)
    else if |size.rest| < size.n + 2 then Body(dst + size.rest, Some(Eof), [])
    else if size.rest[size.n..size.n + 2] != CRLF then
      Body(dst + size.rest[..size.n + 2], Some(BrokenChunk), size.rest[size.n + 2..])
    else ReadChunks(size.rest[size.n + 2..], limit, dst + size.rest[..size.n])
  }

  lemma {:induction false} HexIntShortens(s: seq<byte>, i: nat, n: nat)
    ensures |HexInt(s, i, n).rest| <= |s|
    ensures HexInt(s, i, n).Size? && i == 0 ==> |HexInt(s, i, n).rest| < |s|
    decreases |s|
  {
    if s != [] && HexValue(s[0]) != 16 && i < MAX_HEX_DIGITS {
      HexIntShortens(s[1..], i + 1, 16 * n + HexValue(s[0]));
    }
  }

  lemma ChunkSizeShortens(s: seq<byte>)
    ensures ChunkSize(s).Size? ==> |ChunkSize(s).rest| < |s|
  {
    HexIntShortens(s, 0, 0);
  }

  // ---- the reader's code ----

  method ReadHexInt(r: Reader) returns (n: int, err: Option<Error>)
    requires r.Valid()
    modifies r
    ensures r.Valid()
    ensures var size := HexInt(old(r.Rest()), 0, 0);
            && r.Rest() == size.rest
            && (if size.Size? then err.None? && n == size.n else err == Some(size.error))
  {
    n := 0;
    var i := 0;
    ghost var start := r.Rest();
    while true
      invariant r.Valid() && n >= 0 && i >= 0
      invariant HexInt(r.Rest(), i, n) == HexInt(start, 0, 0)
      decreases |r.Rest()|
    {
      var c, e := r.ReadByte();
      if e.Some? {
        if i > 0 {
          return n, None;
        }
        return -1, e;
      }
      var k := HexValue(c);
      if k == 16 {
        if i == 0 {
          return -1, Some(EmptyHex);
        }
        r.UnreadByte();
        return n, None;
      }
      if i >= MAX_HEX_DIGITS {
        return -1, Some(TooLargeHex);
      }
      n := 16 * n + k;
      i := i + 1;
    }
  }

  method ReadCrLf(r: Reader) returns (err: Option<Error>)
    requires r.Valid()
    modifies r
    ensures r.Valid() && (err, r.Rest()) == CrLf(old(r.Rest()))
  {
    var c, e := r.ReadByte();
    if e.Some? {
      return e;
    }
    if c != CR {
      return Some(BrokenChunk);
    }
    c, e := r.ReadByte();
    if e.Some? {
      return e;
    }
    if c != LF {
      return Some(BrokenChunk);
    }
    return None;
  }

  lemma FromCrStep(s: seq<byte>)
    requires s != []
    ensures FromCr(s) == if s[0] == CR then s else FromCr(s[1..])
  {
  }

  /** The loop of parseChunkSize that skips a chunk extension. */
  method SkipExtension(r: Reader) returns (err: Option<Error>)
    requires r.Valid()
    modifies r
    ensures r.Valid() && r.Rest() == FromCr(old(r.Rest()))
    ensures err == if r.Rest() == [] then Some(Eof) else None
  {
    ghost var start := r.Rest();
    while true
      invariant r.Valid() && FromCr(r.Rest()) == FromCr(start)
      decreases |r.Rest()|
    {
      ghost var before := r.Rest();
      var c, e := r.ReadByte();
      if e.Some? {
        return e;
      }
      FromCrStep(before);
      if c == CR {
        r.UnreadByte();
        return None;
      }
    }
  }

  method ParseChunkSize(r: Reader) returns (n: int, err: Option<Error>)
    requires r.Valid()
    modifies r
    ensures r.Valid()
    ensures var size := ChunkSize(old(r.Rest()));
            && r.Rest() == size.rest
            && (if size.Size? then err.None? && n == size.n else err == Some(size.error))
  {
    hide HexInt, FromCr;
    n, err := ReadHexInt(r);
    if err.Some? {
      return -1, err;
    }
    err := SkipExtension(r);
    if err.Some? {
      return -1, err;
    }
    err := ReadCrLf(r);
    if err.Some? {
      return -1, err;
    }
  }

  /** appendBodyFixedSize: n more bytes, through as many reads as it takes. */
  method AppendBodyFixedSize(r: Reader, dst: seq<byte>, n: int) returns (b: seq<byte>, err: Option<Error>)
    requires r.Valid()
    modifies r
    ensures r.Valid()
    ensures n < 0 ==> err == Some(SliceBounds) && r.pos == old(r.pos)
    ensures 0 <= n <= |old(r.Rest())| ==>
              err.None? && b == dst + old(r.Rest())[..n] && r.Rest() == old(r.Rest())[n..]
    ensures |old(r.Rest())| < n ==> err == Some(Eof) && b == dst + old(r.Rest()) && r.Rest() == []
  {
    b := dst;
    if n == 0 {
      return b, None;
    }
    if n < 0 {
      return b, Some(SliceBounds);
    }
    ghost var start := r.Rest();
    var left := n;
    while true
      invariant r.Valid() && 0 < left <= n
      invariant b + r.Rest() == dst + start && |b| == |dst| + (n - left)
      decreases left
    {
      var got, e := r.Read(left);
      if e.Some? {
        return b, e;
      }
      b := b + got;
      left := left - |got|;
      if left == 0 {
        assert (b + r.Rest())[..|b|] == b && (b + r.Rest())[|b|..] == r.Rest();
        assert (dst + start)[..|b|] == dst + start[..n] && (dst + start)[|b|..] == start[n..];
        return b, None;
      }
    }
  }

  method ReadBodyChunked(r: Reader, limit: int) returns (dst: seq<byte>, err: Option<Error>)
    requires r.Valid()
    modifies r
    ensures r.Valid() && Body(dst, err, r.Rest()) == ReadChunks(old(r.Rest()), limit, [])
  {
    hide ChunkSize;
    dst := [];
    ghost var start := r.Rest();
    while true
      invariant r.Valid() && ReadChunks(r.Rest(), limit, dst) == ReadChunks(start, limit, [])
      decreases |r.Rest()|
    {
      ChunkSizeShortens(r.Rest());
      var n, e := ParseChunkSize(r);
      if e.Some? {
        return dst, e;
      }
      if n == 0 {
        return dst, None;
      }
      if limit > 0 && |dst| + n > limit {
        return dst, Some(BodyTooLarge);
      }
      ghost var rest := r.Rest();
      ghost var before := dst;
      dst, e := AppendBodyFixedSize(r, dst, n + 2);
      if e.Some? {
        return dst, e;
      }
      assert dst[|dst| - 2..] == rest[n..n + 2] && dst[..|dst| - 2] == before + rest[..n];
      if dst[|dst| - 2..] != CRLF {
        return dst, Some(BrokenChunk);
      }
      dst := dst[..|dst| - 2];
    }
  }
}
