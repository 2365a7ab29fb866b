/** Bodies with a Content-Length: readBodyWithStreaming, ReadBodyStream and the three streams it hands out. */
module FixedBody {
  import opened Bytes
  import opened Ledger
  import opened Wire
  import Chunked

  const PREFETCH_MAX: nat := 8 * 1024

  function Min(a: nat, b: nat): nat
  {
    if a < b then a else b
  }

  // ---- the streams ----

  /** bytes.Reader over a slice of the reader's own buffer. */
  class BytesReader {
    const b: seq<byte>
    var i: nat

    ghost predicate Valid() reads this { i <= |b| }

    ghost function ToCome(): seq<byte>
      reads this
      requires Valid()
    {
      b[i..]
    }

    constructor (b: seq<byte>)
      ensures Valid() && this.b == b && i == 0 && ToCome() == b
    {
      this.b, i := b, 0;
    }

    method Read(want: nat) returns (data: seq<byte>, err: Option<Error>)
      requires Valid() && want > 0
      modifies this
      ensures Valid() && |data| <= want && i == old(i) + |data| && old(ToCome()) == data + ToCome()
      ensures err.None? ==> data != []
      ensures err == if old(ToCome()) == [] then Some(Eof) else None
    {
      if i >= |b| {
        return [], Some(Eof);
      }
      data, err := b[i..i + Min(want, |b| - i)], None;
      i := i + |data|;
    }
  }

  class TwoBytesReader {
    const first: seq<byte>
    const second: seq<byte>
    var i: nat
    var current: nat

    ghost predicate Valid()
      reads this
    {
      (current == 0 && i <= |first|) || (current == 1 && i <= |second|)
    }

    ghost function ToCome(): seq<byte>
      reads this
      requires Valid()
    {
      if current == 0 then first[i..] + second else second[i..]
    }

    constructor (first: seq<byte>, second: seq<byte>)
      ensures Valid() && ToCome() == first + second
    {
      this.first, this.second, i, current := first, second, 0, 0;
    }

    method Read(want: nat) returns (data: seq<byte>, err: Option<Error>)
      requires Valid() && want > 0
      modifies this
      ensures Valid() && |data| <= want && old(ToCome()) == data + ToCome()
      ensures err.None? ==> data != []
      ensures err.Some? ==> err.value == Eof && ToCome() == []
    {
      err := None;
      if current == 0 {
        data := first[i..i + Min(want, |first| - i)];
        FirstPart(first, second, i, i + |data|);
        i := i + |data|;
        if i == |first| {
          current, i := 1, 0;
          if |data| == 0 {
            data, err := ReadSecond(want);
          }
        }
        return;
      }
      data, err := ReadSecond(want);
    }

    /** The code behind the label `second`. */
    method ReadSecond(want: nat) returns (data: seq<byte>, err: Option<Error>)
      requires Valid() && current == 1 && want > 0
      modifies this
      ensures Valid() && current == 1 && |data| <= want && old(ToCome()) == data + ToCome()
      ensures err.None? ==> data != []
      ensures err.Some? ==> err.value == Eof && ToCome() == []
    {
      if i >= |second| {
        return [], Some(Eof);
      }
      data, err := second[i..i + Min(want, |second| - i)], None;
      i := i + |data|;
    }
  }

  lemma FirstPart(first: seq<byte>, second: seq<byte>, i: nat, j: nat)
    requires i <= j <= |first|
    ensures first[i..] + second == first[i..j] + (first[j..] + second)
    ensures j == |first| ==> first[j..] + second == second[0..]
  {
  }

  /** requestStream in its Content-Length mode: a prefetched start, the rest straight from the connection. */
  class PrefetchedStream {
    const contentLength: nat
    const prefetched: BytesReader
    const reader: Reader
    var totalBytesRead: nat

    ghost predicate Valid()
      reads this, prefetched, reader
    {
      && prefetched.Valid() && reader.Valid()
      && |prefetched.b| <= contentLength && totalBytesRead <= contentLength
      && prefetched.i == Min(totalBytesRead, |prefetched.b|)
    }

    /** How many bytes of the body are still on the wire. */
    ghost function Unfetched(): nat
      reads this, prefetched, reader
      requires Valid()
    {
      contentLength - if totalBytesRead < |prefetched.b| then |prefetched.b| else totalBytesRead
    }

    /** What is left of the prefetched bytes, and of the wire what Content-Length still covers. */
    ghost function ToCome(): seq<byte>
      reads this, prefetched, reader
      requires Valid()
    {
      prefetched.ToCome() + FromWire(reader.Rest(), Unfetched())
    }

    constructor (contentLength: nat, b: seq<byte>, reader: Reader)
      requires reader.Valid() && |b| <= contentLength
      ensures Valid() && fresh(prefetched) && this.reader == reader && this.contentLength == contentLength
      ensures Unfetched() == contentLength - |b| && ToCome() == b + FromWire(reader.Rest(), contentLength - |b|)
    {
      this.contentLength, this.reader, totalBytesRead := contentLength, reader, 0;
      this.prefetched := new BytesReader(b);
    }

    /** io.EOF, never an error of its own, also where the wire ends before the body does. */
    method Read(want: nat) returns (data: seq<byte>, err: Option<Error>)
      requires Valid() && want > 0
      modifies this, prefetched, reader
      ensures Valid() && |data| <= want && old(ToCome()) == data + ToCome()
      ensures reader.pos + Unfetched() == old(reader.pos + Unfetched())
      ensures err.None? ==> data != []
      ensures err.Some? ==> err.value == Eof && ToCome() == [] && (Unfetched() == 0 || reader.Rest() == [])
    {
      hide FromWire;
      WireNothing(reader.Rest());
      if totalBytesRead == contentLength {
        return [], Some(Eof);
      }
      var size := |prefetched.b|;
      if size > totalBytesRead {
        var left := size - totalBytesRead;
        ghost var before := prefetched.ToCome();
        data, err := prefetched.Read(Min(want, left));
        totalBytesRead := totalBytesRead + |data|;
        return;
      }
      var left := contentLength - totalBytesRead;
      ghost var s := reader.Rest();
      data, err := reader.Read(Min(want, left));
      totalBytesRead := totalBytesRead + |data|;
      WireTaken(data, reader.Rest(), left);
      assert s == data + reader.Rest();
      assert prefetched.ToCome() == [];
    }
  }

  /** The next n unread bytes, or as many as there are. */
  function FromWire(rest: seq<byte>, n: nat): seq<byte>
  {
    rest[..Min(n, |rest|)]
  }

  lemma WireNothing(rest: seq<byte>)
    ensures FromWire(rest, 0) == []
    ensures forall n :: FromWire([], n) == []
  {
  }

  lemma WireTaken(data: seq<byte>, rest: seq<byte>, n: nat)
    requires |data| <= n
    ensures FromWire(data + rest, n) == data + FromWire(rest, n - |data|)
  {
    var t := data + rest;
    assert t[..Min(n, |t|)] == data + rest[..Min(n - |data|, |rest|)];
  }

  // ---- choosing a stream ----

  datatype BodyStream = InBuffer(bytes: BytesReader) | TwoParts(parts: TwoBytesReader) | Prefetched(stream: PrefetchedStream)

  /** How many bytes readBodyWithStreaming is willing to read ahead: the least of the limit, the length and 8 KB, which for
      a negative limit is less than none. */
  function ReadAhead(contentLength: nat, limit: int): (n: int)
    ensures n <= contentLength && n <= limit && n <= 8192
    ensures n == limit || n == contentLength || n == 8192
    ensures n < 0 <==> limit < 0
  {
    if limit < 0 then limit else Min(Min(limit, contentLength), PREFETCH_MAX)
  }

  /** A body that is too long to be buffered, with a negative limit: the read-ahead slices below zero. */
  predicate Panics(contentLength: nat, limit: int, size: nat)
  {
    limit < 0 && ReadAhead(contentLength, limit) + size < contentLength
  }

  /** How many bytes must arrive before the request is handed to its handler. */
  function MustArrive(contentLength: nat, limit: int, size: nat): nat
    requires !Panics(contentLength, limit, size)
  {
    if ReadAhead(contentLength, limit) + size >= contentLength then contentLength else ReadAhead(contentLength, limit)
  }

  /** readBodyWithStreaming for a Content-Length that is positive; BodyTooLarge asks for a prefetched stream. */
  method ReadBodyWithStreaming(r: Reader, contentLength: nat, limit: int)
    returns (b: seq<byte>, allInBuf: bool, err: Option<Error>)
    requires r.Valid() && contentLength > 0
    modifies r
    ensures r.Valid()
    ensures Panics(contentLength, limit, r.size) ==> err == Some(SliceBounds) && r.pos == old(r.pos)
    ensures !Panics(contentLength, limit, r.size) ==>
              var must := MustArrive(contentLength, limit, r.size);
              && (|old(r.Rest())| < must ==> err == Some(Eof))
              && (|old(r.Rest())| >= must ==>
                    && err == (if ReadAhead(contentLength, limit) + r.size >= contentLength then None
                               else Some(BodyTooLarge))
                    && allInBuf == (err.None? && contentLength <= r.size)
                    && r.pos == old(r.pos) + |b| && b == old(r.Rest())[..|b|] == r.wire[old(r.pos)..r.pos]
                    && |b| == (if allInBuf then contentLength
                               else if err.None? then contentLength - r.size
                               else ReadAhead(contentLength, limit)))
  {
    hide ReadAhead;
    allInBuf := false;
    var readN := ReadAhead(contentLength, limit);
    if readN + r.size >= contentLength {
      if contentLength <= r.size {
        allInBuf := true;
        b, err := r.Peek(contentLength);
        if err.None? {
          r.Discard(contentLength);
        }
        return;
      }
      b, err := Chunked.AppendBodyFixedSize(r, [], contentLength - r.size);
      if err.Some? {
        return;
      }
      var _, e := r.Peek(r.size);
      return b, allInBuf, e;
    }
    b, err := Chunked.AppendBodyFixedSize(r, [], readN);
    if err.Some? {
      return;
    }
    err := Some(BodyTooLarge);
  }

  /** Before the stream's first Read: the body begins at position `at` of the wire. */
  ghost predicate Opened(s: BodyStream, r: Reader, at: nat, contentLength: nat)
    reads r, Parts(s)
  {
    && r.Valid() && at <= |r.wire|
    && var end := Min(at + contentLength, |r.wire|);
       match s
       case InBuffer(b) => b.Valid() && b.ToCome() == r.wire[at..end] && r.pos == end == at + contentLength
       case TwoParts(t) => t.Valid() && t.ToCome() == r.wire[at..end] && r.pos == end == at + contentLength
       case Prefetched(p) => p.Valid() && p.reader == r && p.ToCome() == r.wire[at..end]
                             && r.pos + p.Unfetched() == at + contentLength
  }

  ghost function Parts(s: BodyStream): set<object>
  {
    match s
    case InBuffer(b) => {b}
    case TwoParts(t) => {t}
    case Prefetched(p) => {p, p.prefetched, p.reader}
  }

  /** Request.ReadBodyStream from where the Content-Length is known to be positive. */
  method ReadBodyStream(r: Reader, contentLength: nat, limit: int) returns (stream: Option<BodyStream>, err: Option<Error>)
    requires r.Valid() && contentLength > 0
    modifies r
    ensures r.Valid()
    ensures err == if Panics(contentLength, limit, r.size) then Some(SliceBounds)
                   else if |old(r.Rest())| < MustArrive(contentLength, limit, r.size) then Some(UnexpectedEof)
                   else None
    ensures stream.Some? <==> err.None?
    ensures stream.Some? ==> fresh(Parts(stream.value) - {r}) && Opened(stream.value, r, old(r.pos), contentLength)
  {
    hide ReadAhead, FromWire, Opened;
    var b, allInBuf, e := ReadBodyWithStreaming(r, contentLength, limit);
    if e == Some(BodyTooLarge) {
      var rs := OpenPrefetched(r, b, contentLength);
      return Some(rs), None;
    }
    if e == Some(Eof) {
      return None, Some(UnexpectedEof);
    }
    if e.Some? {
      return None, e;
    }
    var whole := OpenWhole(r, b, allInBuf, contentLength);
    return Some(whole), None;
  }

  /** The branch of ReadBodyStream for a body that is read ahead in part. */
  method OpenPrefetched(r: Reader, b: seq<byte>, contentLength: nat) returns (stream: BodyStream)
    requires r.Valid() && |b| <= contentLength && |b| <= r.pos && b == r.wire[r.pos - |b|..r.pos]
    ensures fresh(Parts(stream) - {r}) && Opened(stream, r, r.pos - |b|, contentLength)
  {
    hide FromWire, Opened;
    ghost var at := r.pos - |b|;
    var rs := new PrefetchedStream(contentLength, b, r);
    assert r.wire[at..] == b + r.Rest();
    WireTaken(b, r.Rest(), contentLength);
    OpensPrefetched(rs, r, at, contentLength);
    return Prefetched(rs);
  }

  /** The branches for a body of which nothing, or what fits into the buffer, is left to read. */
  method OpenWhole(r: Reader, b: seq<byte>, allInBuf: bool, contentLength: nat) returns (stream: BodyStream)
    requires r.Valid() && |b| <= r.pos && b == r.wire[r.pos - |b|..r.pos]
    requires |b| == if allInBuf then contentLength else contentLength - r.size
    requires !allInBuf ==> r.size <= |r.Rest()|
    modifies r
    ensures r.Valid() && fresh(Parts(stream) - {r}) && Opened(stream, r, old(r.pos) - |b|, contentLength)
  {
    hide Opened;
    ghost var at := r.pos - |b|;
    if allInBuf {
      var whole := new BytesReader(b);
      OpensBuffer(whole, r, at, contentLength);
      return InBuffer(whole);
    }
    var b2, _ := r.Peek(r.size);
    r.Discard(r.size);
    var two := new TwoBytesReader(b, b2);
    TwoPieces(r.wire, at, |b|, contentLength);
    OpensParts(two, r, at, contentLength);
    return TwoParts(two);
  }

  lemma OpensBuffer(b: BytesReader, r: Reader, at: nat, n: nat)
    requires r.Valid() && b.Valid() && r.pos == at + n && b.ToCome() == r.wire[at..at + n]
    ensures Opened(InBuffer(b), r, at, n)
  {
  }

  lemma OpensParts(t: TwoBytesReader, r: Reader, at: nat, n: nat)
    requires r.Valid() && t.Valid() && r.pos == at + n && t.ToCome() == r.wire[at..at + n]
    ensures Opened(TwoParts(t), r, at, n)
  {
  }

  lemma OpensPrefetched(p: PrefetchedStream, r: Reader, at: nat, n: nat)
    requires r.Valid() && p.Valid() && p.reader == r && at <= |r.wire|
    requires p.ToCome() == FromWire(r.wire[at..], n) && r.pos + p.Unfetched() == at + n
    ensures Opened(Prefetched(p), r, at, n)
  {
    FromWireAt(r, at, n);
  }

  lemma TwoPieces(wire: seq<byte>, at: nat, k: nat, n: nat)
    requires k <= n && at + n <= |wire|
    ensures wire[at..at + k] + wire[at + k..][..n - k] == wire[at..at + n]
  {
  }

  lemma FromWireAt(r: Reader, at: nat, n: nat)
    requires at <= |r.wire|
    ensures FromWire(r.wire[at..], n) == r.wire[at..Min(at + n, |r.wire|)]
  {
  }

  // ---- draining ----

  lemma Regroup(a: seq<byte>, b: seq<byte>, c: seq<byte>)
    ensures a + (b + c) == (a + b) + c && a + [] == a
  {
  }

  method DrainBuffer(b: BytesReader, sizes: nat -> nat) returns (data: seq<byte>)
    requires b.Valid() && forall i :: sizes(i) > 0
    modifies b
    ensures b.Valid() && data == old(b.ToCome())
  {
    hide BytesReader.ToCome;
    data := [];
    var i := 0;
    while true
      invariant b.Valid() && old(b.ToCome()) == data + b.ToCome()
      decreases |b.ToCome()|
    {
      var got, e := b.Read(sizes(i));
      Regroup(data, got, b.ToCome());
      data := data + got;
      if e.Some? {
        return;
      }
      i := i + 1;
    }
  }

  method DrainParts(t: TwoBytesReader, sizes: nat -> nat) returns (data: seq<byte>)
    requires t.Valid() && forall i :: sizes(i) > 0
    modifies t
    ensures t.Valid() && data == old(t.ToCome())
  {
    hide TwoBytesReader.ToCome;
    data := [];
    var i := 0;
    while true
      invariant t.Valid() && old(t.ToCome()) == data + t.ToCome()
      decreases |t.ToCome()|
    {
      var got, e := t.Read(sizes(i));
      Regroup(data, got, t.ToCome());
      data := data + got;
      if e.Some? {
        return;
      }
      i := i + 1;
    }
  }

  method DrainPrefetched(p: PrefetchedStream, sizes: nat -> nat) returns (data: seq<byte>)
    requires p.Valid() && forall i :: sizes(i) > 0
    modifies p, p.prefetched, p.reader
    ensures p.Valid() && data == old(p.ToCome())
    ensures p.reader.pos == Min(old(p.reader.pos + p.Unfetched()), |p.reader.wire|)
  {
    hide FromWire, PrefetchedStream.ToCome;
    data := [];
    var i := 0;
    while true
      invariant p.Valid() && old(p.ToCome()) == data + p.ToCome()
      invariant p.reader.pos + p.Unfetched() == old(p.reader.pos + p.Unfetched())
      decreases |p.ToCome()|
    {
      var got, e := p.Read(sizes(i));
      Regroup(data, got, p.ToCome());
      data := data + got;
      if e.Some? {
        return;
      }
      i := i + 1;
    }
  }

  /** Opening a body and reading its stream to io.EOF with any destination sizes: whichever stream was chosen,
      the handler gets the first Content-Length bytes of the wire and the reader stands exactly behind them,
      if they are all there. If they are not, either the request fails with an error, or (a prefetched stream)
      the handler gets what there is and a plain io.EOF. That happens exactly when the wire ends inside a body that
      is too long to be buffered, and behind the part of it that was read ahead. */
  method ReadWholeBody(r: Reader, contentLength: nat, limit: int, sizes: nat -> nat)
    returns (data: seq<byte>, err: Option<Error>)
    requires r.Valid() && contentLength > 0 && forall i :: sizes(i) > 0
    modifies r
    ensures r.Valid()
    ensures err == if Panics(contentLength, limit, r.size) then Some(SliceBounds)
                   else if |old(r.Rest())| < MustArrive(contentLength, limit, r.size) then Some(UnexpectedEof)
                   else None
    ensures err.None? ==> data == old(r.Rest())[..Min(contentLength, old(|r.Rest()|))]
                          && r.pos == old(r.pos) + |data|
    ensures limit >= 0 && old(|r.Rest()|) < contentLength <= limit + r.size && contentLength <= 8192 + r.size ==>
              err == Some(UnexpectedEof)
    ensures limit >= 0 && (contentLength > limit + r.size || contentLength > 8192 + r.size) ==>
              (err.None? <==> old(|r.Rest()|) >= (if limit < 8192 then limit else 8192))
    ensures limit >= 0 && old(|r.Rest()|) >= contentLength ==> err.None?
    ensures limit < 0 && contentLength > limit + r.size ==> err == Some(SliceBounds)
    ensures err.None? && |data| < contentLength <==>
              && 0 <= ReadAhead(contentLength, limit) <= old(|r.Rest()|) < contentLength
              && ReadAhead(contentLength, limit) + r.size < contentLength
  {
    hide ReadAhead, FromWire;
    var stream;
    stream, err := ReadBodyStream(r, contentLength, limit);
    data := [];
    match stream
    case None =>
    case Some(InBuffer(b)) => data := DrainBuffer(b, sizes);
    case Some(TwoParts(t)) => data := DrainParts(t, sizes);
    case Some(Prefetched(p)) => data := DrainPrefetched(p, sizes);
  }

  /** Two bytes arrive of a hundred that were announced; the handler gets the two and no error. */
  method ShortBodyIsAccepted() returns (data: seq<byte>, err: Option<Error>)
    ensures data == [97, 98] && err.None?
  {
    var r := new Reader([97, 98], 16);
    data, err := ReadWholeBody(r, 100, 1, i => 1);
  }

  /** A hundred bytes with a negative limit and a buffer of 16: the read-ahead slices below zero. */
  method NegativeLimitPanics(wire: seq<byte>) returns (err: Option<Error>)
    ensures err == Some(SliceBounds)
  {
    var r := new Reader(wire, 16);
    var _, _, e := ReadBodyWithStreaming(r, 100, -1);
    err := e;
  }
}
