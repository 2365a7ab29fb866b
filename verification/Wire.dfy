/** The bytes a peer sent, read through a bufio.Reader: a byte sequence with a cursor. */
module Wire {
  import opened Bytes
  import opened Ledger

  /** SliceBounds stands for the run-time panic of a slice expression. */
  datatype Error =
    | Eof | UnexpectedEof | BrokenChunk | EmptyHex | TooLargeHex | BodyTooLarge | BufferFull | ShortBuffer | SliceBounds

  class Reader {
    const wire: seq<byte>
    /** Size(): the length of the buffer, which bounds what Peek can show. */
    const size: nat
    var pos: nat

    ghost predicate Valid()
      reads this
    {
      pos <= |wire|
    }

    /** What has not been read yet. */
    ghost function Rest(): seq<byte>
      reads this
      requires Valid()
    {
      wire[pos..]
    }

    constructor (wire: seq<byte>, size: nat)
      ensures Valid() && Rest() == wire && this.size == size && this.wire == wire && pos == 0
    {
      this.wire, this.size, this.pos := wire, size, 0;
    }

    method ReadByte() returns (c: byte, err: Option<Error>)
      requires Valid()
      modifies this
      ensures Valid() && (err.None? <==> old(Rest()) != [])
      ensures err.None? ==> c == old(Rest())[0] && Rest() == old(Rest())[1..] && pos == old(pos) + 1
      ensures err.Some? ==> err.value == Eof && Rest() == [] && pos == old(pos)
    {
      if pos == |wire| {
        return 0, Some(Eof);
      }
      c, err := wire[pos], None;
      pos := pos + 1;
    }

    /** Only ever called after a successful ReadByte. */
    method UnreadByte()
      requires Valid() && pos > 0
      modifies this
      ensures Valid() && pos == old(pos) - 1 && Rest() == [wire[pos]] + old(Rest())
    {
      pos := pos - 1;
    }

    /** Up to want bytes, at least one while there are any: how many is the network's choice. */
    method Read(want: nat) returns (got: seq<byte>, err: Option<Error>)
      requires Valid() && want > 0
      modifies this
      ensures Valid() && |got| <= want && old(Rest()) == got + Rest()
      ensures err.None? ==> got != []
      ensures err.Some? ==> err.value == Eof && got == [] && Rest() == []
    {
      if pos == |wire| {
        return [], Some(Eof);
      }
      var n :| 1 <= n <= want && n <= |wire| - pos;
      got, err := wire[pos..pos + n], None;
      pos := pos + n;
    }

    /** The next n bytes without consuming them. */
    method Peek(n: nat) returns (got: seq<byte>, err: Option<Error>)
      requires Valid()
      ensures err.None? <==> n <= size && n <= |Rest()|
      ensures err.None? ==> got == Rest()[..n]
      ensures err.Some? ==> err.value == if n > size then BufferFull else Eof
    {
      if n > size {
        return [], Some(BufferFull);
      }
      if n > |wire| - pos {
        return wire[pos..], Some(Eof);
      }
      return wire[pos..pos + n], None;
    }

    /** Skips the next n bytes, all of which Peek has just shown. */
    method Discard(n: nat)
      requires Valid() && n <= |Rest()|
      modifies this
      ensures Valid() && Rest() == old(Rest())[n..]
    {
      pos := pos + n;
    }
  }
}
