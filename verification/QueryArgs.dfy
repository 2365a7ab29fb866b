/** Query strings: Args.ParseBytes, Args.AppendBytes, argsScanner.next and delAllArgs. */
module QueryArgs {
  import opened Bytes
  import opened Escaping

  /** argsKV; noValue marks a key that was written without '='. */
  datatype Arg = Arg(key: seq<byte>, value: seq<byte>, noValue: bool)

  /** What ParseBytes keeps: something to say, and no value where none was written. */
  predicate Proper(a: Arg)
  {
    (a.key != [] || a.value != []) && (a.noValue ==> a.value == [])
  }

  // ---- printing ----

  function PrintArg(a: Arg): seq<byte>
  {
    QuoteArg(a.key) + if a.noValue then [] else [EQUALS] + QuoteArg(a.value)
  }

  function Print(args: seq<Arg>): seq<byte>
  {
    if args == [] then []
    else if |args| == 1 then PrintArg(args[0])
    else PrintArg(args[0]) + [AMP] + Print(args[1..])
  }

  method AppendBytes(dst: seq<byte>, args: seq<Arg>) returns (r: seq<byte>)
    ensures r == dst + Print(args)
  {
    hide Print, PrintArg;
    r := dst;
    PrintNothing(dst, args);
    for i := 0 to |args|
      invariant r + Print(args[i..]) == dst + Print(args)
    {
      var kv := args[i];
      PrintNext(r, args, i);
      r := AppendArg(r, kv);
      if i + 1 < |args| {
        r := r + [AMP];
      }
    }
    PrintNothing(r, args);
  }

  /** One round of the loop of AppendBytes, without the separator. */
  method AppendArg(dst: seq<byte>, kv: Arg) returns (r: seq<byte>)
    ensures r == dst + PrintArg(kv)
  {
    hide QuoteArg;
    r := AppendQuotedArg(dst, kv.key);
    if !kv.noValue {
      r := r + [EQUALS];
      if |kv.value| > 0 {
        r := AppendQuotedArg(r, kv.value);
      } else {
        QuoteNothing();
      }
    }
  }

  lemma PrintNothing(r: seq<byte>, args: seq<Arg>)
    ensures args[0..] == args && r + Print(args[|args|..]) == r
  {
    hide PrintArg;
    assert args[|args|..] == [];
  }

  lemma PrintNext(r: seq<byte>, args: seq<Arg>, i: nat)
    requires i < |args|
    ensures r + Print(args[i..]) == r + PrintArg(args[i]) + (if i + 1 < |args| then [AMP] else []) + Print(args[i + 1..])
  {
    hide PrintArg;
    assert args[i..][1..] == args[i + 1..];
    if i + 1 == |args| {
      assert args[i + 1..] == [] && Print(args[i + 1..]) == [];
    }
  }

  lemma QuoteNothing()
    ensures QuoteArg([]) == []
  {
  }

  // ---- parsing ----

  /** One piece between two '&'. */
  function ParseArg(piece: seq<byte>): Arg
  {
    var n := IndexByte(piece, EQUALS);
    if n < 0 then Arg(Decode(piece, true), [], true)
    else Arg(Decode(piece[..n], true), Decode(piece[n + 1..], true), false)
  }

  /** The first piece of b and what follows its '&'. */
  function Cut(b: seq<byte>): (seq<byte>, seq<byte>)
  {
    var n := IndexByte(b, AMP);
    if n < 0 then (b, []) else (b[..n], b[n + 1..])
  }

  function ParseArgs(b: seq<byte>): seq<Arg>
    decreases |b|
  {
    if b == [] then []
    else
      var (piece, rest) := Cut(b);
      var a := ParseArg(piece);
      (if a.key != [] || a.value != [] then [a] else []) + ParseArgs(rest)
  }

  class ArgsScanner {
    var b: seq<byte>

    constructor (b: seq<byte>)
      ensures this.b == b
    {
      this.b := b;
    }

    /** next: one pass over the bytes up to the next '&'. Nothing of the old slot survives. */
    method Next(stale: Arg) returns (ok: bool, kv: Arg)
      modifies this
      ensures ok <==> old(b) != []
      ensures ok ==> kv == ParseArg(Cut(old(b)).0) && b == Cut(old(b)).1
      ensures !ok ==> kv == stale && b == old(b)
    {
      kv := stale;
      if |b| == 0 {
        return false, kv;
      }
      kv := kv.(noValue := false);
      var isKey := true;
      var k := 0;
      for i := 0 to |b|
        invariant b == old(b)
        invariant !kv.noValue && forall j :: 0 <= j < i ==> b[j] != AMP
        invariant isKey ==> forall j :: 0 <= j < i ==> b[j] != EQUALS
        invariant !isKey ==> 0 < k <= i && b[k - 1] == EQUALS && (forall j :: 0 <= j < k - 1 ==> b[j] != EQUALS)
                             && kv.key == Decode(b[..k - 1], true)
      {
        var c := b[i];
        if c == EQUALS {
          if isKey {
            isKey := false;
            var key := DecodeArgAppend([], b[..i]);
            kv := kv.(key := key);
            k := i + 1;
          }
        } else if c == AMP {
          PieceAt(b, i, isKey, k);
          if isKey {
            var key := DecodeArgAppend([], b[..i]);
            kv := Arg(key, [], true);
          } else {
            var value := DecodeArgAppend([], b[k..i]);
            kv := kv.(value := value);
          }
          b := b[i + 1..];
          return true, kv;
        }
      }
      PieceAt(b, |b|, isKey, k);
      if isKey {
        var key := DecodeArgAppend([], b);
        kv := Arg(key, [], true);
      } else {
        var value := DecodeArgAppend([], b[k..]);
        kv := kv.(value := value);
      }
      b := [];
      return true, kv;
    }
  }

  /** The scan stopped at i, the end or the first '&'; k is behind the first '=' if there was one. */
  lemma PieceAt(b: seq<byte>, i: nat, isKey: bool, k: nat)
    requires i <= |b| && (i < |b| ==> b[i] == AMP) && forall j :: 0 <= j < i ==> b[j] != AMP
    requires isKey ==> forall j :: 0 <= j < i ==> b[j] != EQUALS
    requires !isKey ==> 0 < k <= i && b[k - 1] == EQUALS && forall j :: 0 <= j < k - 1 ==> b[j] != EQUALS
    ensures Cut(b) == (b[..i], if i < |b| then b[i + 1..] else [])
    ensures ParseArg(b[..i]) == if isKey then Arg(Decode(b[..i], true), [], true)
                                else Arg(Decode(b[..k - 1], true), Decode(b[k..i], true), false)
  {
    hide IndexByte, Decode;
    assert IndexByte(b, AMP) == if i < |b| then i else -1;
    assert i == |b| ==> b[..i] == b;
    assert IndexByte(b[..i], EQUALS) == if isKey then -1 else k - 1;
    if !isKey {
      assert b[..i][..k - 1] == b[..k - 1] && b[..i][k..] == b[k..i];
    }
  }

  /** ParseBytes: a slot is kept only if the scanner filled it with something. */
  method ParseBytes(b: seq<byte>) returns (args: seq<Arg>)
    ensures args == ParseArgs(b)
  {
    hide ParseArg, Cut;
    var s := new ArgsScanner(b);
    var slot := Arg([], [], false);
    args := [];
    var more, kv := s.Next(slot);
    CutShortens(b);
    while more
      invariant more ==> args + (if kv.key != [] || kv.value != [] then [kv] else []) + ParseArgs(s.b) == ParseArgs(b)
      invariant !more ==> args == ParseArgs(b)
      decreases more, |s.b|
    {
      if |kv.key| > 0 || |kv.value| > 0 {
        args := args + [kv];
      }
      CutShortens(s.b);
      more, kv := s.Next(kv);
    }
  }

  lemma CutShortens(b: seq<byte>)
    ensures b != [] ==> |Cut(b).1| < |b|
  {
  }

  // ---- reading what was printed ----

  lemma PrintedArgIsRead(a: Arg)
    requires Proper(a)
    ensures ParseArg(PrintArg(a)) == a && PrintArg(a) != [] && AMP !in PrintArg(a)
  {
    hide QuoteArg, Decode, IndexByte;
    var k, v, p := QuoteArg(a.key), QuoteArg(a.value), PrintArg(a);
    QuotedArgBytes(a.key);
    QuotedArgBytes(a.value);
    ArgRoundTrip(a.key);
    ArgRoundTrip(a.value);
    DecodeNothing(true);
    if a.noValue {
      assert p == k;
      assert IndexByte(p, EQUALS) == -1;
    } else {
      assert p == k + ([EQUALS] + v);
      assert p[..|k|] == k && p[|k| + 1..] == v && p[|k|] == EQUALS;
      assert forall j :: 0 <= j < |k| ==> p[j] == k[j];
      assert IndexByte(p, EQUALS) == |k|;
    }
  }

  lemma CutAt(piece: seq<byte>, rest: seq<byte>)
    requires AMP !in piece
    ensures Cut(piece) == (piece, []) && Cut(piece + [AMP] + rest) == (piece, rest)
  {
    hide IndexByte;
    var b := piece + [AMP] + rest;
    assert IndexByte(piece, AMP) == -1;
    assert b[|piece|] == AMP && b[..|piece|] == piece && b[|piece| + 1..] == rest;
    assert IndexByte(b, AMP) == |piece|;
  }

  /** ParseBytes undoes AppendBytes, the no-value marks included. */
  lemma {:induction false} PrintParse(args: seq<Arg>)
    requires forall i :: 0 <= i < |args| ==> Proper(args[i])
    ensures ParseArgs(Print(args)) == args
  {
    hide ParseArg, PrintArg, Cut;
    if args != [] {
      var p, rest := PrintArg(args[0]), Print(args[1..]);
      PrintedArgIsRead(args[0]);
      CutAt(p, rest);
      PrintParse(args[1..]);
      if |args| == 1 {
        assert args == [args[0]];
      } else {
        assert args == [args[0]] + args[1..];
      }
    }
  }

  /** A piece as it is written: a key, and perhaps '=' and a value. */
  datatype Raw = Raw(key: seq<byte>, value: seq<byte>, noValue: bool)
  {
    /** The first '=' ends the key, so the value may have more; neither has '&'. */
    predicate Valid() { 61 !in key && 38 !in key && 38 !in value }

    function Text(): seq<byte> { if noValue then key else key + [61] + value }

    function Meaning(): Arg
    {
      if noValue then Arg(Decode(key, true), [], true) else Arg(Decode(key, true), Decode(value, true), false)
    }
  }

  function RawText(raws: seq<Raw>): seq<byte>
  {
    if raws == [] then [] else if |raws| == 1 then raws[0].Text() else raws[0].Text() + [38] + RawText(raws[1..])
  }

  /** What is kept of the pieces: those that have a key or a value. */
  function Kept(raws: seq<Raw>): seq<Arg>
  {
    if raws == [] then []
    else
      var a := raws[0].Meaning();
      (if a.key != [] || a.value != [] then [a] else []) + Kept(raws[1..])
  }

  /** Whatever pieces are written, quoted or not, empty or not: they are parsed one by one in order. */
  lemma {:induction false} RawArgsAreParsed(raws: seq<Raw>)
    requires forall i :: 0 <= i < |raws| ==> raws[i].Valid()
    ensures ParseArgs(RawText(raws)) == Kept(raws)
  {
    hide ParseArg, Cut, Decode;
    if raws != [] {
      var p, rest := raws[0].Text(), RawText(raws[1..]);
      RawArgIsParsed(raws[0]);
      RawArgsAreParsed(raws[1..]);
      CutAt(p, rest);
      if |raws| == 1 {
        assert raws[1..] == [];
        DecodeNothing(true);
        EmptyPiece(p);
      }
    }
  }

  lemma EmptyPiece(p: seq<byte>)
    ensures p == [] ==> ParseArg(p).key == [] && ParseArg(p).value == []
  {
    if p == [] {
      DecodeNothing(true);
    }
  }

  lemma RawArgIsParsed(r: Raw)
    requires r.Valid()
    ensures ParseArg(r.Text()) == r.Meaning() && AMP !in r.Text()
  {
    hide IndexByte, Decode;
    var p := r.Text();
    if r.noValue {
      assert IndexByte(p, EQUALS) == -1;
    } else {
      assert p[|r.key|] == EQUALS && p[..|r.key|] == r.key && p[|r.key| + 1..] == r.value;
      assert forall j :: 0 <= j < |r.key| ==> p[j] == r.key[j];
      assert IndexByte(p, EQUALS) == |r.key|;
    }
  }

  lemma {:induction false} ParsedIsProper(b: seq<byte>)
    ensures forall i :: 0 <= i < |ParseArgs(b)| ==> Proper(ParseArgs(b)[i])
    decreases |b|
  {
    if b != [] {
      CutShortens(b);
      ParsedIsProper(Cut(b).1);
    }
  }

  /** Parsing, printing and parsing again is parsing, for every byte string. */
  lemma ParsePrintParse(b: seq<byte>)
    ensures ParseArgs(Print(ParseArgs(b))) == ParseArgs(b)
  {
    hide ParseArgs, Print, Proper;
    ParsedIsProper(b);
    PrintParse(ParseArgs(b));
  }

  // ---- deleting ----

  function Without(args: seq<Arg>, key: seq<byte>): seq<Arg>
  {
    if args == [] then []
    else
      var init, last := Without(args[..|args| - 1], key), args[|args| - 1];
      if last.key == key then init else init + [last]
  }

  lemma {:induction false} WithoutRemoved(args: seq<Arg>, i: nat, key: seq<byte>)
    requires i < |args| && args[i].key == key
    ensures Without(args[..i] + args[i + 1..], key) == Without(args, key)
  {
    var n := |args|;
    if i == n - 1 {
      assert args[..i] + args[i + 1..] == args[..i];
    } else {
      WithoutRemoved(args[..n - 1], i, key);
      var t := args[..i] + args[i + 1..];
      assert t[..n - 2] == args[..n - 1][..i] + args[..n - 1][i + 1..];
    }
  }

  lemma {:induction false} WithoutNone(args: seq<Arg>, key: seq<byte>)
    requires forall k :: 0 <= k < |args| ==> args[k].key != key
    ensures Without(args, key) == args
  {
    if args != [] { WithoutNone(args[..|args| - 1], key); }
  }

  /** Element i moved behind element n - 1. */
  function MovedBack(s: seq<Arg>, i: nat, n: nat): (r: seq<Arg>)
    requires i < n <= |s|
    ensures |r| == |s|
  {
    s[..i] + s[i + 1..n] + [s[i]] + s[n..]
  }

  lemma MovedBackPermutes(s: seq<Arg>, i: nat, n: nat)
    requires i < n <= |s|
    ensures multiset(MovedBack(s, i, n)) == multiset(s)
    ensures MovedBack(s, i, n)[..n - 1] == s[..n][..i] + s[..n][i + 1..]
  {
    var a, b, x, c := s[..i], s[i + 1..n], [s[i]], s[n..];
    assert s == a + x + b + c;
    assert multiset(s) == multiset(a) + multiset(x) + multiset(b) + multiset(c);
    assert MovedBack(s, i, n) == a + b + x + c;
  }

  /** Between two rounds of delAllArgs: s is what the array holds, n the shortened length. */
  ghost predicate Deleting(s: seq<Arg>, i: nat, n: nat, was: seq<Arg>, key: seq<byte>)
  {
    && i <= n <= |s|
    && (forall k :: 0 <= k < i ==> s[k].key != key)
    && Without(s[..n], key) == Without(was, key)
    && multiset(s) == multiset(was)
  }

  lemma DeletingStarts(s: seq<Arg>, key: seq<byte>)
    ensures Deleting(s, 0, |s|, s, key)
  {
    assert s[..|s|] == s;
  }

  lemma DeletingOne(s: seq<Arg>, i: nat, n: nat, was: seq<Arg>, key: seq<byte>)
    requires Deleting(s, i, n, was, key) && i < n && s[i].key == key
    ensures Deleting(MovedBack(s, i, n), i, n - 1, was, key)
  {
    hide Without;
    WithoutRemoved(s[..n], i, key);
    MovedBackPermutes(s, i, n);
    assert forall k :: 0 <= k < i ==> MovedBack(s, i, n)[k] == s[k];
  }

  lemma DeletingEnds(s: seq<Arg>, n: nat, was: seq<Arg>, key: seq<byte>)
    requires Deleting(s, n, n, was, key)
    ensures n <= |s| && s[..n] == Without(was, key) && multiset(s) == multiset(was)
  {
    WithoutNone(s[..n], key);
  }

  /** delAllArgs: the matching slots are moved behind the shortened list, where allocArg finds them again. */
  method DelAllArgs(a: array<Arg>, key: seq<byte>) returns (n: nat)
    modifies a
    ensures n <= a.Length && a[..n] == Without(old(a[..]), key)
    ensures multiset(a[..]) == multiset(old(a[..]))
  {
    hide Without, MovedBack, Deleting;
    n := a.Length;
    var i := 0;
    DeletingStarts(a[..], key);
    while i < n
      invariant 0 <= i <= n <= a.Length
      invariant Deleting(a[..], i, n, old(a[..]), key)
      decreases n - i
    {
      if a[i].key == key {
        DeletingOne(a[..], i, n, old(a[..]), key);
        MoveBack(a, i, n);
        n := n - 1;
      } else {
        DeletingSkips(a[..], i, n, old(a[..]), key);
        i := i + 1;
      }
    }
    DeletingEnds(a[..], n, old(a[..]), key);
    assert a[..n] == a[..][..n];
  }

  lemma DeletingSkips(s: seq<Arg>, i: nat, n: nat, was: seq<Arg>, key: seq<byte>)
    requires Deleting(s, i, n, was, key) && i < n && s[i].key != key
    ensures Deleting(s, i + 1, n, was, key)
  {
  }

  /** tmp := a[i]; copy(a[i:], a[i+1:n]); a[n-1] = tmp */
  method MoveBack(a: array<Arg>, i: nat, n: nat)
    requires i < n <= a.Length
    modifies a
    ensures a[..] == MovedBack(old(a[..]), i, n)
  {
    hide MovedBack;
    ghost var s := a[..];
    var tmp := a[i];
    forall j | i <= j < n - 1 {
      a[j] := a[j + 1];
    }
    a[n - 1] := tmp;
    forall j | 0 <= j < a.Length
      ensures a[..][j] == MovedBack(s, i, n)[j]
    {
      MovedBackAt(s, i, n, j);
    }
  }

  lemma MovedBackAt(s: seq<Arg>, i: nat, n: nat, j: nat)
    requires i < n <= |s| && j < |s|
    ensures MovedBack(s, i, n)[j] == if i <= j < n - 1 then s[j + 1] else if j == n - 1 then s[i] else s[j]
  {
  }
}
