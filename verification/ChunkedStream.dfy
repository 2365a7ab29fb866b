/** requestStream.Read in chunked mode: it delivers what readBodyChunked reads, however it is called. */
module ChunkedStream {
  import opened Bytes
  import opened Ledger
  import opened Escaping
  import opened Wire
  import opened Chunked
  import opened ChunkedProofs

  // ---- all that is still to come from a stream ----

  function Behind(data: seq<byte>, b: Body): Body
  {
    Body(data + b.data, b.error, b.rest)
  }

  /** Everything a chunked stream still delivers, how it ends (None: at the last chunk, with the trailer
      section unread) and where it leaves the reader; left bytes of the current chunk are still to come. */
  function Streamed(s: seq<byte>, left: nat): Body
    decreases |s|, left == 0
  {
    if left > 0 then
      if |s| < left then Body(s, Some(UnexpectedEof), [])
      else
        var end := CrLf(s[left..]);
        CrLfShortens(s[left..]);
        if end.0.Some? then Body(s[..left], end.0, end.1) else Behind(s[..left], Streamed(end.1, 0))
    else
      var size := ChunkSize(s);
      ChunkSizeShortens(s);
      if size.BadSize? then Body([], Some(size.error), size.rest)
      else if size.n == 0 then Body([], None, size.rest)
      else Streamed(size.rest, size.n)
  }

  lemma CrLfShortens(s: seq<byte>)
    ensures |CrLf(s).1| <= |s|
  {
  }

  lemma BehindTwo(a: seq<byte>, b: seq<byte>, c: Body)
    ensures Behind(a, Behind(b, c)) == Behind(a + b, c) && Behind([], c) == c
  {
    assert a + (b + c.data) == a + b + c.data && [] + c.data == c.data;
  }

  /** Taking some bytes of the current chunk moves them from what is to come to what has come. */
  lemma TakeSome(s: seq<byte>, left: nat, n: nat)
    requires 0 < n < left && n <= |s|
    ensures Streamed(s, left) == Behind(s[..n], Streamed(s[n..], left - n))
  {
    hide CrLf;
    if |s| < left {
      assert s == s[..n] + s[n..];
    } else {
      assert s[n..][left - n..] == s[left..] && s[..left] == s[..n] + s[n..][..left - n];
      BehindTwo(s[..n], s[n..][..left - n], Streamed(CrLf(s[left..]).1, 0));
    }
  }

  /** At a size line; `rest` and `n` are what reading it gives. */
  lemma AtSize(s: seq<byte>)
    ensures var size := ChunkSize(s);
            if size.BadSize? then Streamed(s, 0) == Body([], Some(size.error), size.rest)
            else if size.n == 0 then Streamed(s, 0) == Body([], None, size.rest)
            else Streamed(s, 0) == Streamed(size.rest, size.n)
  {
    hide ChunkSize, CrLf;
  }

  /** All that is left of the current chunk, or nothing at all where there should be more. */
  lemma TakeAll(s: seq<byte>, left: nat)
    requires left > 0
    ensures s == [] ==> Streamed(s, left) == Body([], Some(UnexpectedEof), [])
    ensures left <= |s| ==>
              var end := CrLf(s[left..]);
              Streamed(s, left) == if end.0.Some? then Body(s[..left], end.0, end.1) else Behind(s[..left], Streamed(end.1, 0))
  {
    hide ChunkSize, CrLf;
  }

  // ---- the stream ----

  class RequestStream {
    const reader: Reader
    var totalBytesRead: nat
    var chunkLeft: nat

    ghost predicate Valid()
      reads this, reader
    {
      reader.Valid()
    }

    ghost function ToCome(): Body
      reads this, reader
      requires Valid()
    {
      Streamed(reader.Rest(), chunkLeft)
    }

    constructor (reader: Reader)
      requires reader.Valid()
      ensures Valid() && this.reader == reader && chunkLeft == 0 && totalBytesRead == 0
      ensures ToCome() == Streamed(reader.Rest(), 0)
    {
      this.reader, totalBytesRead, chunkLeft := reader, 0, 0;
    }

    /** One call with a destination of want bytes. `last` says that the last chunk has been read: the source
        then reads the trailer section and returns io.EOF. */
    method Read(want: nat) returns (data: seq<byte>, err: Option<Error>, last: bool)
      requires Valid() && want > 0
      modifies this, reader
      ensures Valid() && |data| <= want && totalBytesRead == old(totalBytesRead) + |data|
      ensures !last && err.None? ==> data != [] && old(ToCome()) == Behind(data, ToCome())
      ensures last || err.Some? ==> old(ToCome()) == Body(data, err, reader.Rest())
      ensures last ==> err.None? && data == []
    {
      hide ChunkSize, CrLf, Streamed;
      data, last := [], false;
      if chunkLeft == 0 {
        AtSize(reader.Rest());
        var n;
        n, err := ParseChunkSize(reader);
        if err.Some? {
          return;
        }
        if n == 0 {
          last := true;
          return;
        }
        chunkLeft := n;
      }
      assert old(ToCome()) == ToCome();
      ghost var s, left := reader.Rest(), chunkLeft;
      var toRead := if chunkLeft < want then chunkLeft else want;
      data, err := reader.Read(toRead);
      totalBytesRead := totalBytesRead + |data|;
      chunkLeft := chunkLeft - |data|;
      assert data == s[..|data|] && reader.Rest() == s[|data|..];
      TakeAll(s, left);
      if err.Some? {
        err := Some(UnexpectedEof);
        return;
      }
      if chunkLeft == 0 {
        err := ReadCrLf(reader);
      } else {
        TakeSome(s, left, |data|);
      }
    }
  }

  /** Reading a stream to its end, with any positive destination sizes. */
  method Drain(rs: RequestStream, sizes: nat -> nat) returns (data: seq<byte>, err: Option<Error>)
    requires rs.Valid() && forall i :: sizes(i) > 0
    modifies rs, rs.reader
    ensures rs.Valid() && Body(data, err, rs.reader.Rest()) == old(rs.ToCome())
    ensures old(rs.chunkLeft) == 0 ==>
              var b := ReadChunks(old(rs.reader.Rest()), 0, []);
              && (err.None? <==> b.error.None?)
              && (err.None? ==> data == b.data && rs.reader.Rest() == b.rest)
  {
    hide Streamed, ReadChunks;
    StreamAgrees(rs.reader.Rest());
    data, err := [], None;
    var i := 0;
    ghost var all := rs.ToCome();
    BehindTwo([], [], all);
    while true
      invariant rs.Valid() && all == Behind(data, rs.ToCome())
      decreases |rs.ToCome().data|
    {
      ghost var before := rs.ToCome();
      var got, e, last := rs.Read(sizes(i));
      ghost var was := data;
      data := data + got;
      if last || e.Some? {
        return data, e;
      }
      BehindTwo(was, got, rs.ToCome());
      i := i + 1;
    }
  }

  // ---- what it delivers ----

  lemma ChunkIsStreamed(c: Chunk, t: seq<byte>)
    requires GoodChunk(c)
    ensures Streamed(Line(c.digits, c.ext) + (c.data + (CRLF + t)), 0) == Behind(c.data, Streamed(t, 0))
  {
    hide ChunkSize, Value, Line;
    var rest := c.data + (CRLF + t);
    LineIsRead(c.digits, c.ext, rest);
    assert rest[|c.data|..] == CRLF + t && rest[..|c.data|] == c.data;
    assert CrLf(CRLF + t) == (None, t) by { assert (CRLF + t)[2..] == t; }
  }

  lemma {:induction false} ChunksAreStreamed(cs: seq<Chunk>, t: seq<byte>)
    requires GoodChunks(cs)
    ensures Streamed(Written(cs) + t, 0) == Behind(DataOf(cs), Streamed(t, 0))
    decreases |cs|
  {
    hide Streamed, Line, GoodChunk;
    if cs == [] {
      assert Written(cs) + t == t;
      BehindTwo([], [], Streamed(t, 0));
    } else {
      var c, more := cs[0], Written(cs[1..]) + t;
      assert Written(cs) + t == Line(c.digits, c.ext) + (c.data + (CRLF + more));
      ChunkIsStreamed(c, more);
      ChunksAreStreamed(cs[1..], t);
      BehindTwo(c.data, DataOf(cs[1..]), Streamed(t, 0));
    }
  }

  /** The bytes at the end of a wire that was cut behind the data of a chunk and the '\r' after it. */
  ghost predicate CutInCrLf(s: seq<byte>)
  {
    exists cs, c :: GoodChunks(cs) && GoodChunk(c) && s == Written(cs) + CutChunk(c)
  }

  function CutChunk(c: Chunk): seq<byte>
  {
    Line(c.digits, c.ext) + (c.data + [CR])
  }

  /** One round on a tail that holds no whole chunk. */
  lemma StuckRound(tail: seq<byte>, dst: seq<byte>)
    requires Stuck(tail)
    ensures var b, r := ReadChunks(tail, 0, dst), Streamed(tail, 0);
            && (b.error.None? <==> r.error.None?)
            && (b.error.None? ==> b.data == dst + r.data && b.rest == r.rest)
            && (r.error == Some(Eof) ==> b.error == Some(Eof) && b.rest == r.rest == [])
  {
    hide ChunkSize;
    var size := ChunkSize(tail);
    if size.BadSize? || size.n == 0 {
      assert dst + [] == dst;
      BadSizeRest(tail);
    }
  }

  lemma BadSizeRest(s: seq<byte>)
    ensures ChunkSize(s).BadSize? && ChunkSize(s).error == Eof ==> ChunkSize(s).rest == []
  {
    HexIntEof(s, 0, 0);
  }

  lemma {:induction false} HexIntEof(s: seq<byte>, i: nat, n: nat)
    ensures HexInt(s, i, n).BadSize? && HexInt(s, i, n).error == Eof ==> HexInt(s, i, n).rest == []
    decreases |s|
  {
    if s != [] && HexValue(s[0]) != 16 && i < MAX_HEX_DIGITS {
      HexIntEof(s[1..], i + 1, 16 * n + HexValue(s[0]));
    }
  }

  /** A chunked stream reaches the last chunk exactly when readBodyChunked without a limit succeeds; it has then
      delivered the same bytes and left the reader in the same place. A stream that reports io.EOF before that
      stands at the end of the wire, where readBodyChunked fails with io.EOF too. */
  lemma StreamAgrees(s: seq<byte>)
    ensures var b, r := ReadChunks(s, 0, []), Streamed(s, 0);
            && (b.error.None? <==> r.error.None?)
            && (b.error.None? ==> b == r)
            && (r.error == Some(Eof) ==> b.error == Some(Eof) && b.rest == r.rest == [])
  {
    hide ReadChunks, Streamed, Written, DataOf, GoodChunk, Stuck;
    var cs, tail := Peel(s);
    ChunksAreRead(cs, tail, []);
    ChunksAreStreamed(cs, tail);
    assert [] + DataOf(cs) == DataOf(cs);
    StuckRound(tail, DataOf(cs));
  }

  lemma CutChunkRound(c: Chunk, dst: seq<byte>)
    requires GoodChunk(c)
    ensures Streamed(CutChunk(c), 0) == Body(c.data, Some(Eof), [])
    ensures ReadChunks(CutChunk(c), 0, dst) == Body(dst + (c.data + [CR]), Some(Eof), [])
  {
    hide ChunkSize, Value, Line;
    var rest := c.data + [CR];
    LineIsRead(c.digits, c.ext, rest);
    assert rest[|c.data|..] == [CR] && rest[..|c.data|] == c.data;
  }

  lemma WasCutChunk(tail: seq<byte>, dst: seq<byte>) returns (c: Chunk)
    requires Stuck(tail) && Streamed(tail, 0).error == Some(Eof)
    requires ReadChunks(tail, 0, dst).data != dst + Streamed(tail, 0).data
    ensures GoodChunk(c) && tail == CutChunk(c)
  {
    hide ChunkSize, Value, Line;
    var size := ChunkSize(tail);
    assert dst + [] == dst;
    var digits, ext := LineWasRead(tail);
    assert size.rest[..size.n] + size.rest[size.n..] == size.rest;
    assert |size.rest| == size.n + 1;
    assert size.rest == size.rest[..size.n] + [CR];
    c := Chunk(digits, ext, size.rest[..size.n]);
  }

  /** When a stream reports io.EOF early it has delivered what readBodyChunked returns beside its error,
      unless the wire was cut between the two bytes that end a chunk: readBodyChunked then returns the '\r' too. */
  lemma EarlyEofBytes(s: seq<byte>)
    requires Streamed(s, 0).error == Some(Eof)
    ensures ReadChunks(s, 0, []).data == Streamed(s, 0).data <==> !CutInCrLf(s)
  {
    hide ReadChunks, Streamed, Written, DataOf, GoodChunk, Stuck, CutChunk;
    var cs, tail := Peel(s);
    ChunksAreRead(cs, tail, []);
    ChunksAreStreamed(cs, tail);
    assert [] + DataOf(cs) == DataOf(cs);
    if ReadChunks(s, 0, []).data != Streamed(s, 0).data {
      var c := WasCutChunk(tail, DataOf(cs));
      assert CutInCrLf(s);
    }
    if CutInCrLf(s) {
      CutIsSeen(s);
    }
  }

  /** The wire "...data\r" ends a stream with io.EOF although the body is not complete. */
  lemma CutIsSeen(s: seq<byte>)
    requires CutInCrLf(s)
    ensures Streamed(s, 0).error == Some(Eof)
    ensures ReadChunks(s, 0, []).data == Streamed(s, 0).data + [CR]
  {
    hide ReadChunks, Streamed, Written, DataOf, GoodChunk, CutChunk;
    var cs, c :| GoodChunks(cs) && GoodChunk(c) && s == Written(cs) + CutChunk(c);
    ChunksAreRead(cs, CutChunk(c), []);
    ChunksAreStreamed(cs, CutChunk(c));
    assert [] + DataOf(cs) == DataOf(cs);
    CutChunkRound(c, DataOf(cs));
    assert DataOf(cs) + (c.data + [CR]) == DataOf(cs) + c.data + [CR];
  }

  // ---- when a stream ends early with io.EOF ----

  /** A size line that was cut: its digits and extension, perhaps with the '\r', but without the '\n'. */
  ghost predicate CutLine(t: seq<byte>)
  {
    exists digits, ext :: GoodSize(digits, ext) && (t == digits + ext || t == digits + (ext + [CR]))
  }

  /** A chunk that was cut behind its data: with the '\r' or without it. */
  ghost predicate CutBehindData(t: seq<byte>)
  {
    exists c :: GoodChunk(c) && (t == Line(c.digits, c.ext) + c.data || t == CutChunk(c))
  }

  ghost predicate CutTail(t: seq<byte>)
  {
    t == [] || CutLine(t) || CutBehindData(t)
  }

  /** Good chunks, and then the wire ends between two chunks, in a size line or in the CRLF behind a chunk. */
  ghost predicate EndsEarly(s: seq<byte>)
  {
    exists cs, t :: GoodChunks(cs) && s == Written(cs) + t && CutTail(t)
  }

  lemma NoSize()
    ensures Streamed([], 0) == Body([], Some(Eof), [])
  {
  }

  lemma CutLineRound(digits: seq<byte>, ext: seq<byte>, cr: bool)
    requires GoodSize(digits, ext)
    ensures Streamed(digits + (ext + if cr then [CR] else []), 0).error == Some(Eof)
  {
    hide HexInt, IndexByte, Value, HexValue;
    var rest := ext + if cr then [CR] else [];
    CrIsNotHex();
    assert rest != [] ==> rest[0] == if ext == [] then CR else ext[0];
    HexIntReads(digits, rest, 0, 0);
    assert forall k :: 0 <= k < |ext| ==> rest[k] == ext[k];
    if cr {
      assert rest[|ext|] == CR;
      assert IndexByte(rest, CR) == |ext|;
      assert FromCr(rest) == [CR];
    } else {
      assert IndexByte(rest, CR) == -1;
    }
  }

  lemma CutDataRound(c: Chunk)
    requires GoodChunk(c)
    ensures Streamed(Line(c.digits, c.ext) + c.data, 0).error == Some(Eof)
  {
    hide ChunkSize, Value, Line;
    LineIsRead(c.digits, c.ext, c.data);
    assert c.data[|c.data|..] == [];
  }

  lemma CutTailRound(t: seq<byte>)
    requires CutTail(t)
    ensures Streamed(t, 0).error == Some(Eof)
  {
    hide Streamed, GoodChunk, CutChunk, GoodSize, Line;
    if t == [] {
      NoSize();
    } else if CutLine(t) {
      var digits, ext :| GoodSize(digits, ext) && (t == digits + ext || t == digits + (ext + [CR]));
      CutLineRound(digits, ext, false);
      CutLineRound(digits, ext, true);
      assert ext + [] == ext;
    } else {
      var c :| GoodChunk(c) && (t == Line(c.digits, c.ext) + c.data || t == CutChunk(c));
      CutDataRound(c);
      CutChunkRound(c, []);
    }
  }

  lemma {:induction false} OnlyNothingIsNoDigit(s: seq<byte>, i: nat, n: nat)
    requires HexInt(s, i, n).BadSize? && HexInt(s, i, n).error == Eof
    ensures s == [] && i == 0
    decreases |s|
  {
    if s != [] && HexValue(s[0]) != 16 && i < MAX_HEX_DIGITS {
      OnlyNothingIsNoDigit(s[1..], i + 1, 16 * n + HexValue(s[0]));
      assert false;
    }
  }

  lemma CrLfAt(s: seq<byte>, n: nat)
    requires n <= |s|
    ensures CrLf(s[n..]).0.None? <==> n + 2 <= |s| && s[n..n + 2] == CRLF
  {
  }

  lemma CrLfCut(s: seq<byte>)
    requires CrLf(s).0 == Some(Eof)
    ensures s == [] || s == [CR]
  {
  }

  lemma FromCrNone(s: seq<byte>)
    requires FromCr(s) == []
    ensures CR !in s
  {
  }

  /** A size line that ended with io.EOF was cut. */
  lemma LineWasCut(t: seq<byte>)
    requires ChunkSize(t).BadSize? && ChunkSize(t).error == Eof
    ensures t == [] || CutLine(t)
  {
    hide HexInt, FromCr, CrLf, Value, HexValue, AllHex;
    if HexInt(t, 0, 0).BadSize? {
      OnlyNothingIsNoDigit(t, 0, 0);
    } else {
      var rest := HexInt(t, 0, 0).rest;
      var digits := HexIntTook(t, 0, 0);
      CrLfCut(FromCr(rest));
      if FromCr(rest) == [] {
        FromCrNone(rest);
        assert GoodSize(digits, rest) && t == digits + rest;
      } else {
        var ext := FromCrTook(rest);
        assert ext != [] ==> ext[0] == rest[0];
        assert GoodSize(digits, ext) && t == digits + (ext + [CR]);
      }
    }
  }

  lemma TailWasCut(t: seq<byte>)
    requires Stuck(t) && Streamed(t, 0).error == Some(Eof)
    ensures CutTail(t)
  {
    hide ChunkSize, Value, Line, CutLine, CrLf, GoodSize;
    var size := ChunkSize(t);
    if size.BadSize? {
      LineWasCut(t);
    } else {
      var digits, ext := LineWasRead(t);
      var end := size.rest[size.n..];
      CrLfAt(size.rest, size.n);
      CrLfCut(end);
      var c := Chunk(digits, ext, size.rest[..size.n]);
      assert size.rest == c.data + size.rest[size.n..];
      assert size.rest[size.n..] == [] ==> size.rest == c.data;
      assert GoodChunk(c) && (t == Line(digits, ext) + c.data || t == CutChunk(c));
    }
  }

  /** A stream reports io.EOF before the last chunk exactly when the wire ends between two chunks, in a size line or
      in the CRLF behind a chunk. Cut anywhere else it reports ErrUnexpectedReqBodyEOF or a broken chunk. */
  lemma EarlyEofExactly(s: seq<byte>)
    ensures Streamed(s, 0).error == Some(Eof) <==> EndsEarly(s)
  {
    hide Streamed, Written, DataOf, GoodChunk, Stuck, CutTail;
    if EndsEarly(s) {
      var cs, t :| GoodChunks(cs) && s == Written(cs) + t && CutTail(t);
      ChunksAreStreamed(cs, t);
      CutTailRound(t);
    }
    if Streamed(s, 0).error == Some(Eof) {
      var cs, tail := Peel(s);
      ChunksAreStreamed(cs, tail);
      TailWasCut(tail);
      assert GoodChunks(cs) && s == Written(cs) + tail && CutTail(tail);
    }
  }

  /** The wire "1\r\na": one byte of the body has come, the rest never does, and the handler sees a plain io.EOF. */
  lemma EarlyEofExample()
    ensures var s := ['1' as int, CR, LF, 'a' as int];
            && Streamed(s, 0) == Body(['a' as int], Some(Eof), [])
            && ReadChunks(s, 0, []) == Body(['a' as int], Some(Eof), [])
  {
    hide ChunkSize;
    var c := Chunk(['1' as int], [], ['a' as int]);
    var s := ['1' as int, CR, LF, 'a' as int];
    assert Value(c.digits, 0) == 1 by {
      assert c.digits == [] + ['1' as int];
      ValuePush([], '1' as int, 0);
    }
    LineIsRead(c.digits, c.ext, c.data);
    assert s == Line(c.digits, c.ext) + c.data;
    assert c.data[1..] == [] && c.data[..1] == c.data && [] + c.data == c.data;
  }
}
