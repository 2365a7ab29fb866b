/** What the readers of a chunked body say of a malformed one, and the coding at one input. */
module ChunkedErrors {
  import opened Bytes
  import opened Ledger
  import opened Escaping
  import opened Wire
  import opened Chunked
  import opened ChunkedProofs
  import opened ChunkedStream

  /** What can stand in the place of a chunk: something else than a digit, more digits than a size may have, a size line
      that does not end in CR LF, or data without CR LF behind it. */
  datatype Fault =
    | NoDigit(first: byte, t: seq<byte>)
    | TooManyDigits(digits: seq<byte>, t: seq<byte>)
    | BadLineEnd(digits: seq<byte>, ext: seq<byte>, x: byte, t: seq<byte>)
    | BadDataEnd(c: Chunk, x: byte, y: byte, t: seq<byte>)
  {
    ghost predicate Valid()
    {
      match this
      case NoDigit(first, _) => !IsHex(first)
      case TooManyDigits(digits, _) => |digits| == 16 && forall i :: 0 <= i < 16 ==> IsHex(digits[i])
      case BadLineEnd(digits, ext, x, _) => GoodSize(digits, ext) && x != 10
      case BadDataEnd(c, x, y, _) => GoodChunk(c) && (x != 13 || y != 10)
    }

    function Text(): seq<byte>
    {
      match this
      case NoDigit(first, t) => [first] + t
      case TooManyDigits(digits, t) => digits + t
      case BadLineEnd(digits, ext, x, t) => digits + (ext + ([13, x] + t))
      case BadDataEnd(c, x, y, t) => Line(c.digits, c.ext) + (c.data + ([x, y] + t))
    }

    function Report(): Error
    {
      match this
      case NoDigit(_, _) => EmptyHex
      case TooManyDigits(_, _) => TooLargeHex
      case BadLineEnd(_, _, _, _) => BrokenChunk
      case BadDataEnd(_, _, _, _) => BrokenChunk
    }

    /** The data of the chunk that is broken off, where there is any. */
    function Data(): seq<byte> { if BadDataEnd? then c.data else [] }
  }

  lemma {:induction false} TooLong(digits: seq<byte>, t: seq<byte>, i: nat, n: nat)
    requires i + |digits| == 16 && digits != [] && forall k :: 0 <= k < |digits| ==> IsHex(digits[k])
    ensures HexInt(digits + t, i, n).BadSize? && HexInt(digits + t, i, n).error == TooLargeHex
    decreases |digits|
  {
    var s := digits + t;
    assert s[0] == digits[0] && s[1..] == digits[1..] + t;
    if |digits| > 1 {
      TooLong(digits[1..], t, i + 1, 16 * n + HexValue(s[0]));
    }
  }

  lemma BadLine(digits: seq<byte>, ext: seq<byte>, x: byte, t: seq<byte>)
    requires GoodSize(digits, ext) && x != 10
    ensures var size := ChunkSize(digits + (ext + ([13, x] + t))); size.BadSize? && size.error == BrokenChunk
  {
    hide HexInt, IndexByte, Value, HexValue;
    var rest := ext + ([13, x] + t);
    assert rest[0] == if ext == [] then CR else ext[0];
    CrIsNotHex();
    HexIntReads(digits, rest, 0, 0);
    assert forall k :: 0 <= k < |ext| ==> rest[k] == ext[k];
    assert rest[|ext|] == CR;
    assert IndexByte(rest, CR) == |ext|;
    assert FromCr(rest) == [13, x] + t;
  }

  lemma FaultHere(f: Fault, dst: seq<byte>)
    requires f.Valid()
    ensures var b := ReadChunks(f.Text(), 0, dst); b.error == Some(f.Report()) && dst + f.Data() <= b.data
    ensures var b := Streamed(f.Text(), 0); b.error == Some(f.Report()) && b.data == f.Data()
  {
    hide Value, Line, IndexByte;
    match f
    case NoDigit(first, t) => assert dst + [] == dst;
    case TooManyDigits(digits, t) =>
      TooLong(digits, t, 0, 0);
      assert dst + [] == dst;
    case BadLineEnd(digits, ext, x, t) =>
      BadLine(digits, ext, x, t);
      assert dst + [] == dst;
    case BadDataEnd(c, x, y, t) => BrokenData(c, x, y, t, dst);
  }

  /** Data with something else than CR LF behind it. */
  lemma DataEnd(data: seq<byte>, x: byte, y: byte, t: seq<byte>)
    requires x != 13 || y != 10
    ensures var rest, n := data + ([x, y] + t), |data|;
            && |rest| >= n + 2 && rest[n..n + 2] == [x, y] && rest[n..n + 2] != CRLF && rest[..n] == data
            && rest[..n + 2] == data + [x, y] && CrLf(rest[n..]).0 == Some(BrokenChunk)
  {
    var rest, n := data + ([x, y] + t), |data|;
    assert rest[n..] == [x, y] + t;
    assert [x, y][0] == x && [x, y][1] == y && CRLF[0] == 13 && CRLF[1] == 10;
  }

  lemma BrokenData(c: Chunk, x: byte, y: byte, t: seq<byte>, dst: seq<byte>)
    requires GoodChunk(c) && (x != 13 || y != 10)
    ensures var s := Line(c.digits, c.ext) + (c.data + ([x, y] + t));
            && ReadChunks(s, 0, dst).error == Some(BrokenChunk) && dst + c.data <= ReadChunks(s, 0, dst).data
            && Streamed(s, 0).error == Some(BrokenChunk) && Streamed(s, 0).data == c.data
  {
    hide ChunkSize, Value, Line, CrLf;
    var rest := c.data + ([x, y] + t);
    LineIsRead(c.digits, c.ext, rest);
    DataEnd(c.data, x, y, t);
    assert dst + (c.data + [x, y]) == dst + c.data + [x, y];
    var s := Line(c.digits, c.ext) + rest;
    assert Streamed(s, 0) == Streamed(rest, |c.data|);
  }

  /** Behind any good chunks each fault is reported as what it is, by the reader and by the stream, and the data of the
      chunks before it has been read. */
  lemma FaultIsReported(cs: seq<Chunk>, f: Fault)
    requires GoodChunks(cs) && f.Valid()
    ensures var b := ReadChunks(Written(cs) + f.Text(), 0, []); b.error == Some(f.Report()) && DataOf(cs) + f.Data() <= b.data
    ensures var b := Streamed(Written(cs) + f.Text(), 0); b.error == Some(f.Report()) && b.data == DataOf(cs) + f.Data()
  {
    hide ReadChunks, Streamed, Written, Fault.Valid, Fault.Text, Fault.Report, Fault.Data;
    ChunksAreRead(cs, f.Text(), []);
    ChunksAreStreamed(cs, f.Text());
    assert [] + DataOf(cs) == DataOf(cs);
    FaultHere(f, DataOf(cs));
  }

  /** abc is written as 3 CR LF abc CR LF 0 CR LF. */
  method WriteExample() returns (out: seq<byte>)
    ensures out == [51, 13, 10, 97, 98, 99, 13, 10, 48, 13, 10]
  {
    hide Value;
    var blocks: seq<seq<byte>> := [[97, 98, 99]];
    out := WriteBodyChunked([], blocks, true);
    ExampleChunk();
  }

  lemma ExampleChunk()
    ensures Written(ChunksOf([[97, 98, 99]])) == [51, 13, 10, 97, 98, 99, 13, 10]
  {
    hide Value;
    var blocks: seq<seq<byte>> := [[97, 98, 99]];
    assert blocks[..0] == [];
    assert ChunksOf(blocks) == ChunksOf(blocks[..0]) + [ChunkOf([97, 98, 99])] == [ChunkOf([97, 98, 99])];
    WrittenOne(ChunkOf([97, 98, 99]));
    assert ChunkOf([97, 98, 99]).digits == [51];
  }
}
