/** The chunked reader accepts exactly the chunked coding; the writer produces it; the stream delivers it. */
module ChunkedProofs {
  import opened Bytes
  import opened Ledger
  import opened Escaping
  import opened Wire
  import opened Chunked

  // ---- the coding, independent of any reader ----

  /** One chunk as written: size in hexadecimal, extension, data. */
  datatype Chunk = Chunk(digits: seq<byte>, ext: seq<byte>, data: seq<byte>)

  function Value(digits: seq<byte>, n: nat): nat
  {
    if digits == [] then n else Value(digits[1..], 16 * n + HexValue(digits[0]))
  }

  ghost predicate AllHex(digits: seq<byte>)
  {
    forall i :: 0 <= i < |digits| ==> HexValue(digits[i]) < 16
  }

  /** A size and an extension that can stand before CRLF. */
  ghost predicate GoodSize(digits: seq<byte>, ext: seq<byte>)
  {
    && 1 <= |digits| <= 15 && AllHex(digits)
    && CR !in ext && (ext != [] ==> HexValue(ext[0]) == 16)
  }

  function Line(digits: seq<byte>, ext: seq<byte>): seq<byte>
  {
    digits + (ext + CRLF)
  }

  ghost predicate GoodChunk(c: Chunk)
  {
    GoodSize(c.digits, c.ext) && c.data != [] && Value(c.digits, 0) == |c.data|
  }

  ghost predicate GoodChunks(cs: seq<Chunk>)
  {
    forall i :: 0 <= i < |cs| ==> GoodChunk(cs[i])
  }

  function Written(cs: seq<Chunk>): seq<byte>
  {
    if cs == [] then [] else Line(cs[0].digits, cs[0].ext) + (cs[0].data + (CRLF + Written(cs[1..])))
  }

  function DataOf(cs: seq<Chunk>): seq<byte>
  {
    if cs == [] then [] else cs[0].data + DataOf(cs[1..])
  }

  /** s starts with chunks worth data, then a last chunk, and the trailer section is rest. */
  ghost predicate Coded(s: seq<byte>, data: seq<byte>, rest: seq<byte>)
  {
    exists cs, digits, ext ::
      GoodChunks(cs) && GoodSize(digits, ext) && Value(digits, 0) == 0
      && data == DataOf(cs) && s == Written(cs) + (Line(digits, ext) + rest)
  }

  // ---- size lines ----

  lemma {:induction false} HexIntReads(digits: seq<byte>, t: seq<byte>, i: nat, n: nat)
    requires AllHex(digits) && 0 < i + |digits| <= MAX_HEX_DIGITS
    requires t == [] || HexValue(t[0]) == 16
    ensures HexInt(digits + t, i, n) == Size(Value(digits, n), t)
    decreases |digits|
  {
    if digits == [] {
      assert digits + t == t;
    } else {
      assert (digits + t)[1..] == digits[1..] + t;
      HexIntReads(digits[1..], t, i + 1, 16 * n + HexValue(digits[0]));
    }
  }

  lemma {:induction false} HexIntTook(s: seq<byte>, i: nat, n: nat) returns (digits: seq<byte>)
    requires HexInt(s, i, n).Size?
    ensures s == digits + HexInt(s, i, n).rest && AllHex(digits)
    ensures 0 < i + |digits| && (i <= MAX_HEX_DIGITS ==> i + |digits| <= MAX_HEX_DIGITS)
    ensures HexInt(s, i, n).n == Value(digits, n)
    ensures HexInt(s, i, n).rest == [] || HexValue(HexInt(s, i, n).rest[0]) == 16
    decreases |s|
  {
    if s == [] || HexValue(s[0]) == 16 {
      digits := [];
    } else {
      var more := HexIntTook(s[1..], i + 1, 16 * n + HexValue(s[0]));
      digits := [s[0]] + more;
      assert digits[1..] == more;
    }
  }

  lemma LineIsRead(digits: seq<byte>, ext: seq<byte>, t: seq<byte>)
    requires GoodSize(digits, ext)
    ensures ChunkSize(Line(digits, ext) + t) == Size(Value(digits, 0), t)
  {
    hide HexInt, IndexByte, Value, HexValue;
    var rest := ext + (CRLF + t);
    assert Line(digits, ext) + t == digits + rest;
    assert rest[0] == if ext == [] then CR else ext[0];
    CrIsNotHex();
    HexIntReads(digits, rest, 0, 0);
    assert forall k :: 0 <= k < |ext| ==> rest[k] == ext[k];
    assert rest[|ext|] == CR;
    assert IndexByte(rest, CR) == |ext|;
    assert FromCr(rest) == CRLF + t;
  }

  lemma CrIsNotHex()
    ensures HexValue(CR) == 16
  {
  }

  lemma LineWasRead(s: seq<byte>) returns (digits: seq<byte>, ext: seq<byte>)
    requires ChunkSize(s).Size?
    ensures GoodSize(digits, ext) && Value(digits, 0) == ChunkSize(s).n
    ensures s == Line(digits, ext) + ChunkSize(s).rest
  {
    hide HexInt, Value, HexValue, FromCr, CrLf, AllHex;
    var rest := HexInt(s, 0, 0).rest;
    digits := HexIntTook(s, 0, 0);
    CrLfTook(FromCr(rest));
    ext := FromCrTook(rest);
    assert ext != [] ==> ext[0] == rest[0];
    assert rest == ext + CRLF + ChunkSize(s).rest;
  }

  lemma CrLfTook(s: seq<byte>)
    ensures CrLf(s).0.None? ==> s == CRLF + CrLf(s).1
    ensures s == [] ==> CrLf(s).0.Some?
  {
  }

  lemma FromCrTook(s: seq<byte>) returns (ext: seq<byte>)
    requires FromCr(s) != []
    ensures s == ext + FromCr(s) && CR !in ext
  {
    ext := s[..IndexByte(s, CR)];
  }

  // ---- whole bodies ----

  lemma ChunkIsRead(c: Chunk, t: seq<byte>, limit: int, dst: seq<byte>)
    requires GoodChunk(c)
    ensures ReadChunks(Line(c.digits, c.ext) + (c.data + (CRLF + t)), limit, dst) ==
            if limit > 0 && |dst| + |c.data| > limit then Body(dst, Some(BodyTooLarge), c.data + (CRLF + t))
            else ReadChunks(t, limit, dst + c.data)
  {
    hide ChunkSize, Value, Line;
    var rest := c.data + (CRLF + t);
    var n := |c.data|;
    LineIsRead(c.digits, c.ext, rest);
    assert rest[n..n + 2] == CRLF && rest[n + 2..] == t && rest[..n] == c.data;
  }

  lemma {:induction false} ChunksAreRead(cs: seq<Chunk>, t: seq<byte>, dst: seq<byte>)
    requires GoodChunks(cs)
    ensures ReadChunks(Written(cs) + t, 0, dst) == ReadChunks(t, 0, dst + DataOf(cs))
    decreases |cs|
  {
    hide ReadChunks, Line, GoodChunk;
    if cs == [] {
      assert Written(cs) + t == t && dst + DataOf(cs) == dst;
    } else {
      var c, more := cs[0], Written(cs[1..]) + t;
      assert Written(cs) + t == Line(c.digits, c.ext) + (c.data + (CRLF + more));
      ChunkIsRead(c, more, 0, dst);
      ChunksAreRead(cs[1..], t, dst + c.data);
      assert dst + DataOf(cs) == dst + c.data + DataOf(cs[1..]);
    }
  }

  lemma WrittenPush(c: Chunk, cs: seq<Chunk>)
    ensures Written([c] + cs) == Line(c.digits, c.ext) + (c.data + (CRLF + Written(cs)))
    ensures DataOf([c] + cs) == c.data + DataOf(cs)
  {
    assert ([c] + cs)[1..] == cs;
  }

  /** Where the first round of a reader without a limit ends without taking a whole chunk. */
  ghost predicate Stuck(s: seq<byte>)
  {
    var size := ChunkSize(s);
    size.BadSize? || size.n == 0 || |size.rest| < size.n + 2 || size.rest[size.n..size.n + 2] != CRLF
  }

  /** Every input is a list of chunks and something that does not start with one. */
  lemma {:induction false} Peel(s: seq<byte>) returns (cs: seq<Chunk>, tail: seq<byte>)
    ensures GoodChunks(cs) && s == Written(cs) + tail && Stuck(tail)
    decreases |s|
  {
    hide Stuck, Line, Written, DataOf, GoodChunk;
    if Stuck(s) {
      cs, tail := [], s;
      WrittenOne(ChunkOf([]));
      assert s == [] + tail;
    } else {
      var c, rest := FirstChunk(s);
      var more;
      more, tail := Peel(rest);
      cs := [c] + more;
      WrittenPush(c, more);
      Glue(Line(c.digits, c.ext), c.data, Written(more), tail);
    }
  }

  lemma FirstChunk(s: seq<byte>) returns (c: Chunk, rest: seq<byte>)
    requires !Stuck(s)
    ensures GoodChunk(c) && |rest| < |s| && s == Line(c.digits, c.ext) + (c.data + (CRLF + rest))
  {
    hide ChunkSize, Value, Line, GoodSize;
    var size := ChunkSize(s);
    var digits, ext := LineWasRead(s);
    ChunkSizeShortens(s);
    c, rest := Chunk(digits, ext, size.rest[..size.n]), size.rest[size.n + 2..];
    assert size.rest == c.data + (size.rest[size.n..size.n + 2] + rest);
  }

  /** readBodyChunked without a limit succeeds exactly on the chunked coding, with its data, and stops
      exactly before the trailer section. */
  lemma ReadsExactlyTheCoding(s: seq<byte>, data: seq<byte>, rest: seq<byte>)
    ensures ReadChunks(s, 0, []) == Body(data, None, rest) <==> Coded(s, data, rest)
  {
    hide ChunkSize, Value, Line, GoodChunk;
    if Coded(s, data, rest) {
      var cs, digits, ext :|
        GoodChunks(cs) && GoodSize(digits, ext) && Value(digits, 0) == 0
        && data == DataOf(cs) && s == Written(cs) + (Line(digits, ext) + rest);
      ChunksAreRead(cs, Line(digits, ext) + rest, []);
      LineIsRead(digits, ext, rest);
      assert [] + DataOf(cs) == data;
    }
    if ReadChunks(s, 0, []) == Body(data, None, rest) {
      var cs, tail := Peel(s);
      ChunksAreRead(cs, tail, []);
      assert [] + DataOf(cs) == DataOf(cs);
      var digits, ext := LineWasRead(tail);
      assert data == DataOf(cs) && s == Written(cs) + (Line(digits, ext) + rest);
    }
  }

  // ---- the limit ----

  lemma {:induction false} Grows(s: seq<byte>, limit: int, dst: seq<byte>)
    ensures |ReadChunks(s, limit, dst).data| >= |dst|
    decreases |s|
  {
    hide ChunkSize;
    ChunkSizeShortens(s);
    var size := ChunkSize(s);
    if size.Size? && size.n > 0 && |size.rest| >= size.n + 2 {
      Grows(size.rest[size.n + 2..], limit, dst + size.rest[..size.n]);
    }
  }

  /** A positive limit refuses exactly the bodies that are longer, and changes nothing for the others. */
  lemma {:induction false} LimitIsExact(s: seq<byte>, limit: int, dst: seq<byte>, b: Body)
    requires limit > 0 && b.error.None? && |dst| <= limit
    ensures ReadChunks(s, limit, dst) == b <==> ReadChunks(s, 0, dst) == b && |b.data| <= limit
    decreases |s|
  {
    hide ChunkSize;
    ChunkSizeShortens(s);
    var size := ChunkSize(s);
    if size.Size? && size.n > 0 && |size.rest| >= size.n + 2 {
      var more, dst' := size.rest[size.n + 2..], dst + size.rest[..size.n];
      if |dst'| <= limit {
        LimitIsExact(more, limit, dst', b);
      } else {
        Grows(more, 0, dst');
      }
    }
  }

  // ---- the writer ----

  /** lowerhex */
  function LowerHex(v: nat): (c: byte)
    requires v < 16
    ensures HexValue(c) == v && c == if v < 10 then 48 + v else 87 + v
  {
    if v < 10 then '0' as int + v else 'a' as int + (v - 10)
  }

  function HexDigits(n: nat): seq<byte>
  {
    (if n < 16 then [] else HexDigits(n / 16)) + [LowerHex(n % 16)]
  }

  function Power16(k: nat): nat
  {
    if k == 0 then 1 else 16 * Power16(k - 1)
  }

  lemma {:induction false} ValuePush(digits: seq<byte>, d: byte, n: nat)
    ensures Value(digits + [d], n) == 16 * Value(digits, n) + HexValue(d)
    decreases |digits|
  {
    if digits == [] {
      assert digits + [d] == [d];
    } else {
      assert (digits + [d])[1..] == digits[1..] + [d];
      ValuePush(digits[1..], d, 16 * n + HexValue(digits[0]));
    }
  }

  lemma {:induction false} HexDigitsAreRead(n: nat, k: nat)
    requires 0 < k && n < Power16(k)
    ensures 1 <= |HexDigits(n)| <= k && AllHex(HexDigits(n)) && Value(HexDigits(n), 0) == n
    decreases n
  {
    if n < 16 {
      ValuePush([], LowerHex(n % 16), 0);
      assert HexDigits(n) == [] + [LowerHex(n % 16)];
    } else {
      assert Power16(k) == 16 * Power16(k - 1);
      assert Power16(1) == 16;
      HexDigitsAreRead(n / 16, k - 1);
      ValuePush(HexDigits(n / 16), LowerHex(n % 16), 0);
    }
  }

  lemma Power16Of15()
    ensures Power16(15) == CHUNK_BOUND && Power16(16) == 16 * CHUNK_BOUND
  {
    assert Power16(5) == 0x10_0000;
    assert Power16(10) == 0x100_0000_0000;
  }

  lemma HexDigitsStep(m: nat, i: nat)
    requires m < Power16(i + 1)
    ensures HexDigits(m) == (if m / 16 == 0 then [] else HexDigits(m / 16)) + [LowerHex(m % 16)]
    ensures m / 16 != 0 ==> i > 0 && m / 16 < Power16(i)
  {
    assert Power16(i + 1) == 16 * Power16(i) && Power16(1) == 16;
  }

  /** writeHexInt: fills a buffer of 16 from the end. n is a non-negative int of 64 bits. */
  method WriteHexInt(w: seq<byte>, n: nat) returns (out: seq<byte>)
    requires n < 0x8000_0000_0000_0000
    ensures out == w + HexDigits(n)
  {
    hide HexDigits, Power16;
    Power16Of15();
    var buf := new byte[16];
    var i, m := 15, n;
    assert buf[16..] == [];
    while true
      invariant 0 <= i <= 15 && 0 <= m < Power16(i + 1)
      invariant HexDigits(m) + buf[i + 1..] == HexDigits(n)
      decreases i
    {
      ghost var done := buf[i + 1..];
      buf[i] := LowerHex(m % 16);
      assert buf[i + 1..] == done;
      assert buf[i..] == [LowerHex(m % 16)] + done;
      HexDigitsStep(m, i);
      m := m / 16;
      if m == 0 {
        break;
      }
      i := i - 1;
    }
    return w + buf[i..];
  }

  /** The chunk writeChunk writes for a block. */
  function ChunkOf(b: seq<byte>): Chunk
  {
    Chunk(HexDigits(|b|), [], b)
  }

  lemma ChunkOfIsGood(b: seq<byte>)
    requires b != [] && |b| < CHUNK_BOUND
    ensures GoodChunk(ChunkOf(b))
  {
    hide Value, HexDigits;
    Power16Of15();
    HexDigitsAreRead(|b|, 15);
  }

  lemma WrittenOne(c: Chunk)
    ensures Written([]) == [] && DataOf([]) == [] && DataOf([c]) == c.data
    ensures Written([c]) == Line(c.digits, c.ext) + (c.data + CRLF)
  {
    assert [c][1..] == [] && CRLF + [] == CRLF && c.data + [] == c.data;
  }

  lemma {:induction false} WrittenAppend(a: seq<Chunk>, b: seq<Chunk>)
    ensures Written(a + b) == Written(a) + Written(b) && DataOf(a + b) == DataOf(a) + DataOf(b)
  {
    hide Line;
    if a == [] {
      assert a + b == b;
    } else {
      assert (a + b)[1..] == a[1..] + b;
      WrittenAppend(a[1..], b);
      Glue(Line(a[0].digits, a[0].ext), a[0].data, Written(a[1..]), Written(b));
    }
  }

  lemma Glue(line: seq<byte>, data: seq<byte>, x: seq<byte>, y: seq<byte>)
    ensures line + (data + (CRLF + (x + y))) == line + (data + (CRLF + x)) + y
  {
  }

  lemma ChunkBytes(b: seq<byte>)
    ensures Written([ChunkOf(b)]) == HexDigits(|b|) + CRLF + b + CRLF
  {
    hide HexDigits;
    WrittenOne(ChunkOf(b));
    assert [] + CRLF == CRLF;
  }

  /** writeChunk: for a block that is not empty and below the bound, a chunk of the coding that holds the block. */
  method WriteChunk(w: seq<byte>, b: seq<byte>) returns (out: seq<byte>)
    requires |b| < 0x8000_0000_0000_0000
    ensures out == w + Written([ChunkOf(b)])
    ensures 0 < |b| < CHUNK_BOUND ==> GoodChunk(ChunkOf(b))
  {
    hide HexDigits, Written, GoodChunk, ChunkOf;
    if 0 < |b| < CHUNK_BOUND {
      ChunkOfIsGood(b);
    }
    ChunkBytes(b);
    out := WriteHexInt(w, |b|);
    out := out + CRLF;
    out := out + b;
    out := out + CRLF;
  }

  /** One chunk for each block that is not empty. */
  function ChunksOf(blocks: seq<seq<byte>>): seq<Chunk>
  {
    if blocks == [] then []
    else
      var last := blocks[|blocks| - 1];
      ChunksOf(blocks[..|blocks| - 1]) + if last == [] then [] else [ChunkOf(last)]
  }

  function Concat(blocks: seq<seq<byte>>): seq<byte>
  {
    if blocks == [] then [] else Concat(blocks[..|blocks| - 1]) + blocks[|blocks| - 1]
  }

  /** writeBodyChunked over what the body's Read returns until it reports io.EOF (`eof`) or another error; empty reads
      are skipped. */
  method WriteBodyChunked(w: seq<byte>, blocks: seq<seq<byte>>, eof: bool) returns (out: seq<byte>)
    requires forall i :: 0 <= i < |blocks| ==> |blocks[i]| < 0x8000_0000_0000_0000
    ensures out == w + Written(ChunksOf(blocks)) + if eof then LAST_CHUNK else []
  {
    hide Written, ChunkOf;
    out := w;
    WrittenOne(ChunkOf([]));
    assert blocks[..0] == [] && w + [] == w;
    for k := 0 to |blocks|
      invariant out == w + Written(ChunksOf(blocks[..k]))
    {
      assert blocks[..k + 1][..k] == blocks[..k];
      if |blocks[k]| != 0 {
        WrittenAppend(ChunksOf(blocks[..k]), [ChunkOf(blocks[k])]);
        out := WriteChunk(out, blocks[k]);
      } else {
        assert ChunksOf(blocks[..k]) + [] == ChunksOf(blocks[..k]);
      }
    }
    assert blocks[..|blocks|] == blocks;
    if eof {
      out := out + LAST_CHUNK;
    }
  }

  lemma {:induction false} ChunksOfAreGood(blocks: seq<seq<byte>>)
    requires forall i :: 0 <= i < |blocks| ==> |blocks[i]| < CHUNK_BOUND
    ensures GoodChunks(ChunksOf(blocks)) && DataOf(ChunksOf(blocks)) == Concat(blocks)
  {
    hide GoodChunk, ChunkOf, DataOf;
    WrittenOne(ChunkOf([]));
    if blocks != [] {
      var front, last := blocks[..|blocks| - 1], blocks[|blocks| - 1];
      ChunksOfAreGood(front);
      if last != [] {
        ChunkOfIsGood(last);
        WrittenOne(ChunkOf(last));
        ChunkOfData(last);
        WrittenAppend(ChunksOf(front), [ChunkOf(last)]);
      } else {
        assert ChunksOf(front) + [] == ChunksOf(front) && Concat(front) + [] == Concat(front);
      }
    }
  }

  lemma ChunkOfData(b: seq<byte>)
    ensures ChunkOf(b).data == b
  {
  }

  /** What writeBodyChunked wrote, the reader reads back, and it leaves the trailer section untouched. */
  lemma ChunkedRoundTrip(blocks: seq<seq<byte>>, trailer: seq<byte>)
    requires forall i :: 0 <= i < |blocks| ==> |blocks[i]| < CHUNK_BOUND
    ensures ReadChunks(Written(ChunksOf(blocks)) + LAST_CHUNK + trailer, 0, []) == Body(Concat(blocks), None, trailer)
  {
    hide ChunksOf, Concat, Written, GoodChunk;
    var cs := ChunksOf(blocks);
    ChunksOfAreGood(blocks);
    var zero := ['0' as int];
    assert LAST_CHUNK == Line(zero, []);
    assert GoodSize(zero, []) && Value(zero, 0) == 0 by {
      assert zero == [] + zero;
      ValuePush([], zero[0], 0);
    }
    var s := Written(cs) + LAST_CHUNK + trailer;
    assert s == Written(cs) + (Line(zero, []) + trailer);
    ReadsExactlyTheCoding(s, Concat(blocks), trailer);
  }

  /** A body whose stream failed is never read as complete: the reader gets its blocks and then io.EOF. */
  lemma AbortedIsSeen(blocks: seq<seq<byte>>)
    requires forall i :: 0 <= i < |blocks| ==> |blocks[i]| < CHUNK_BOUND
    ensures ReadChunks(Written(ChunksOf(blocks)), 0, []) == Body(Concat(blocks), Some(Eof), [])
  {
    hide ChunksOf, Concat, Written, GoodChunk;
    var cs := ChunksOf(blocks);
    ChunksOfAreGood(blocks);
    ChunksAreRead(cs, [], []);
    assert Written(cs) + [] == Written(cs) && [] + DataOf(cs) == DataOf(cs);
  }
}
