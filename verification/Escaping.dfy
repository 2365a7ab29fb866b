/** Percent escapes: hex2intTable, AppendQuotedArg, appendQuotedPath, decodeArgAppend, decodeArgAppendNoPlus. */
module Escaping {
  import opened Bytes

  /** hex2intTable: 16 stands for "not a hexadecimal digit". */
  function HexValue(c: byte): (v: nat)
    ensures 48 <= c <= 57 ==> v == c - 48
    ensures 65 <= c <= 70 ==> v == c - 55
    ensures 97 <= c <= 102 ==> v == c - 87
    ensures c < 48 || 57 < c < 65 || 70 < c < 97 || c > 102 ==> v == 16
  {
    if '0' as int <= c <= '9' as int then c - '0' as int
    else if 'a' as int <= c <= 'f' as int then c - 'a' as int + 10
    else if 'A' as int <= c <= 'F' as int then c - 'A' as int + 10
    else 16
  }

  /** upperhex */
  function UpperHex(v: nat): (c: byte)
    requires v < 16
    ensures HexValue(c) == v && c == if v < 10 then 48 + v else 55 + v
  {
    if v < 10 then '0' as int + v else 'A' as int + (v - 10)
  }

  predicate IsAlnum(c: byte)
  {
    'a' as int <= c <= 'z' as int || 'A' as int <= c <= 'Z' as int || '0' as int <= c <= '9' as int
  }

  /** quotedArgShouldEscapeTable */
  predicate ArgEscapes(c: byte)
  {
    !(IsAlnum(c) || c in {'-' as int, '_' as int, '.' as int, '~' as int})
  }

  /** quotedPathShouldEscapeTable */
  predicate PathEscapes(c: byte)
  {
    ArgEscapes(c) && c !in {'$' as int, '&' as int, '+' as int, ',' as int, '/' as int, ':' as int, ';' as int, '=' as int, '@' as int}
  }

  /** The three bytes of an escape. */
  function Escape(c: byte): (e: seq<byte>)
    ensures |e| == 3 && e[0] == PERCENT && HexValue(e[1]) < 16 && HexValue(e[2]) < 16
    ensures 16 * HexValue(e[1]) + HexValue(e[2]) == c
  {
    [PERCENT, UpperHex(c / 16), UpperHex(c % 16)]
  }

  function QuoteArgByte(c: byte): seq<byte>
  {
    if c == SPACE then [PLUS] else if ArgEscapes(c) then Escape(c) else [c]
  }

  function QuotePathByte(c: byte): seq<byte>
  {
    if PathEscapes(c) then Escape(c) else [c]
  }

  /** What AppendQuotedArg appends for s. */
  function QuoteArg(s: seq<byte>): seq<byte>
  {
    if s == [] then [] else QuoteArg(s[..|s| - 1]) + QuoteArgByte(s[|s| - 1])
  }

  function QuotePathBytes(s: seq<byte>): seq<byte>
  {
    if s == [] then [] else QuotePathBytes(s[..|s| - 1]) + QuotePathByte(s[|s| - 1])
  }

  /** What appendQuotedPath appends for s. */
  function QuotePath(s: seq<byte>): seq<byte>
  {
    if s == [STAR] then [STAR] else QuotePathBytes(s)
  }

  lemma QuoteEmpty()
    ensures QuoteArg([]) == [] && QuotePathBytes([]) == []
  {
  }

  /** One more byte is quoted behind dst. */
  lemma QuoteNext(dst: seq<byte>, src: seq<byte>, i: nat)
    requires i < |src|
    ensures dst + QuoteArg(src[..i + 1]) == dst + QuoteArg(src[..i]) + QuoteArgByte(src[i])
    ensures dst + QuotePathBytes(src[..i + 1]) == dst + QuotePathBytes(src[..i]) + QuotePathByte(src[i])
  {
    hide QuoteArgByte, QuotePathByte;
    assert src[..i + 1][..i] == src[..i];
  }

  method AppendQuotedArg(dst: seq<byte>, src: seq<byte>) returns (r: seq<byte>)
    ensures r == dst + QuoteArg(src)
  {
    hide QuoteArg, ArgEscapes;
    QuoteEmpty();
    r := dst;
    for i := 0 to |src|
      invariant r == dst + QuoteArg(src[..i])
    {
      var c := src[i];
      QuoteNext(dst, src, i);
      if c == SPACE {
        r := r + [PLUS];
      } else if ArgEscapes(c) {
        r := r + [PERCENT, UpperHex(c / 16), UpperHex(c % 16)];
      } else {
        r := r + [c];
      }
    }
    assert src[..|src|] == src;
  }

  method AppendQuotedPath(dst: seq<byte>, src: seq<byte>) returns (r: seq<byte>)
    ensures r == dst + QuotePath(src)
  {
    hide QuotePathBytes, PathEscapes;
    if |src| == 1 && src[0] == STAR {
      return dst + [STAR];
    }
    QuoteEmpty();
    r := dst;
    for i := 0 to |src|
      invariant r == dst + QuotePathBytes(src[..i])
    {
      var c := src[i];
      QuoteNext(dst, src, i);
      if PathEscapes(c) {
        r := r + [PERCENT, UpperHex(c / 16), UpperHex(c % 16)];
      } else {
        r := r + [c];
      }
    }
    assert src[..|src|] == src;
  }

  // ---- decoding ----

  /** What the decoders append for s: a valid %XY is one byte, '+' is a blank if `plus`, all else stands for
      itself. A '%' among the last two bytes ends the decoding: the rest is copied, '+' included. */
  function Decode(s: seq<byte>, plus: bool): seq<byte>
  {
    if s == [] then []
    else if s[0] == PERCENT && |s| <= 2 then s
    else if s[0] == PERCENT && HexValue(s[1]) < 16 && HexValue(s[2]) < 16 then
      [16 * HexValue(s[1]) + HexValue(s[2])] + Decode(s[3..], plus)
    else
      [if plus && s[0] == PLUS then SPACE else s[0]] + Decode(s[1..], plus)
  }

  /** Decoding that never stops early. */
  function DecodeAll(s: seq<byte>, plus: bool): seq<byte>
  {
    if s == [] then []
    else if s[0] == PERCENT && |s| > 2 && HexValue(s[1]) < 16 && HexValue(s[2]) < 16 then
      [16 * HexValue(s[1]) + HexValue(s[2])] + DecodeAll(s[3..], plus)
    else
      [if plus && s[0] == PLUS then SPACE else s[0]] + DecodeAll(s[1..], plus)
  }

  /** s ends in "%+". */
  predicate EndsInPercentPlus(s: seq<byte>)
  {
    |s| >= 2 && s[|s| - 2] == PERCENT && s[|s| - 1] == PLUS
  }

  /** The early end of the decoders shows exactly where '+' is a blank and the text ends in "%+". */
  lemma {:induction false} EarlyEndShows(s: seq<byte>, plus: bool)
    ensures Decode(s, plus) == DecodeAll(s, plus) <==> !(plus && EndsInPercentPlus(s))
    ensures |Decode(s, plus)| == |DecodeAll(s, plus)|
  {
    if s == [] {
    } else if s[0] == PERCENT && |s| <= 2 {
      assert |s| == 2 ==> DecodeAll(s[1..], plus) == [if plus && s[1] == PLUS then SPACE else s[1]] + DecodeAll(s[2..], plus);
    } else {
      var n := if s[0] == PERCENT && HexValue(s[1]) < 16 && HexValue(s[2]) < 16 then 3 else 1;
      EarlyEndShows(s[n..], plus);
      assert EndsInPercentPlus(s) <==> EndsInPercentPlus(s[n..]);
      var c := Decode(s, plus)[0];
      assert Decode(s, plus) == [c] + Decode(s[n..], plus) && DecodeAll(s, plus) == [c] + DecodeAll(s[n..], plus);
      assert Decode(s, plus)[1..] == Decode(s[n..], plus) && DecodeAll(s, plus)[1..] == DecodeAll(s[n..], plus);
    }
  }

  /** "%+" is left alone, where "a+" becomes "a ". */
  lemma PercentPlusStays()
    ensures Decode([PERCENT, PLUS], true) == [PERCENT, PLUS] && DecodeAll([PERCENT, PLUS], true) == [PERCENT, SPACE]
    ensures Decode(['a' as int, PLUS], true) == ['a' as int, SPACE]
  {
    assert [PERCENT, PLUS][1..] == [PLUS] && [PLUS][1..] == [] && ['a' as int, PLUS][1..] == [PLUS];
    assert Decode([PLUS], true) == [SPACE] && DecodeAll([PLUS], true) == [SPACE];
  }

  /** A plain prefix is copied. */
  lemma {:induction false} DecodePrefix(s: seq<byte>, n: nat, plus: bool)
    requires n <= |s| && forall k :: 0 <= k < n ==> s[k] != PERCENT && (plus ==> s[k] != PLUS)
    ensures Decode(s, plus) == s[..n] + Decode(s[n..], plus)
  {
    if n > 0 {
      DecodePrefix(s[1..], n - 1, plus);
      assert s[1..][n - 1..] == s[n..] && s[..n] == [s[0]] + s[1..][..n - 1];
    }
  }

  /** decodeArgAppend, with its fast path */
  method DecodeArgAppend(dst: seq<byte>, src: seq<byte>) returns (r: seq<byte>)
    ensures r == dst + Decode(src, true)
  {
    DecodeNothing(true);
    hide Decode, IndexByte;
    var idxPercent := IndexByte(src, PERCENT);
    var idxPlus := IndexByte(src, PLUS);
    if idxPercent == -1 && idxPlus == -1 {
      DecodePrefix(src, |src|, true);
      assert src[..|src|] == src && src[|src|..] == [];
      return dst + src;
    }
    var idx := if idxPercent == -1 then idxPlus
               else if idxPlus == -1 then idxPercent
               else if idxPercent > idxPlus then idxPlus
               else idxPercent;
    DecodePrefix(src, idx, true);
    r := DecodeSlow(dst + src[..idx], src[idx..], true);
  }

  /** decodeArgAppendNoPlus, with its fast path */
  method DecodeArgAppendNoPlus(dst: seq<byte>, src: seq<byte>) returns (r: seq<byte>)
    ensures r == dst + Decode(src, false)
  {
    DecodeNothing(false);
    hide Decode, IndexByte;
    var idx := IndexByte(src, PERCENT);
    if idx < 0 {
      DecodePrefix(src, |src|, false);
      assert src[..|src|] == src && src[|src|..] == [];
      return dst + src;
    }
    DecodePrefix(src, idx, false);
    r := DecodeSlow(dst + src[..idx], src[idx..], false);
  }

  /** One step of Decode at position i of src. */
  lemma DecodeAt(src: seq<byte>, i: nat, plus: bool)
    requires i < |src|
    ensures src[i] != PERCENT ==>
              Decode(src[i..], plus) == [if plus && src[i] == PLUS then SPACE else src[i]] + Decode(src[i + 1..], plus)
    ensures src[i] == PERCENT && i + 2 >= |src| ==> Decode(src[i..], plus) == src[i..]
    ensures src[i] == PERCENT && i + 2 < |src| ==>
              var x1, x2 := HexValue(src[i + 1]), HexValue(src[i + 2]);
              Decode(src[i..], plus) == if x1 == 16 || x2 == 16 then [PERCENT] + Decode(src[i + 1..], plus)
                                        else [16 * x1 + x2] + Decode(src[i + 3..], plus)
  {
    var rest := src[i..];
    assert rest[1..] == src[i + 1..];
    assert |rest| > 2 ==> rest[3..] == src[i + 3..];
  }

  /** The loop both decoders end with. */
  method DecodeSlow(dst: seq<byte>, src: seq<byte>, plus: bool) returns (r: seq<byte>)
    ensures r == dst + Decode(src, plus)
  {
    hide Decode, HexValue;
    DecodeNothing(plus);
    r := dst;
    var i := 0;
    assert src[0..] == src;
    while i < |src|
      invariant i <= |src|
      invariant r + Decode(src[i..], plus) == dst + Decode(src, plus)
    {
      var c := src[i];
      DecodeBehind(r, src, i, plus);
      if c == PERCENT {
        if i + 2 >= |src| {
          return r + src[i..];
        }
        var x1, x2 := HexValue(src[i + 1]), HexValue(src[i + 2]);
        if x1 == 16 || x2 == 16 {
          r := r + [PERCENT];
        } else {
          r := r + [16 * x1 + x2];
          i := i + 2;
        }
      } else if plus && c == PLUS {
        r := r + [SPACE];
      } else {
        r := r + [c];
      }
      i := i + 1;
    }
    assert src[i..] == [];
  }

  /** The same step behind what has been decoded to r. */
  lemma DecodeBehind(r: seq<byte>, src: seq<byte>, i: nat, plus: bool)
    requires i < |src|
    ensures src[i] != PERCENT ==>
              r + Decode(src[i..], plus) == r + [if plus && src[i] == PLUS then SPACE else src[i]] + Decode(src[i + 1..], plus)
    ensures src[i] == PERCENT && i + 2 >= |src| ==> Decode(src[i..], plus) == src[i..]
    ensures src[i] == PERCENT && i + 2 < |src| ==>
              var x1, x2 := HexValue(src[i + 1]), HexValue(src[i + 2]);
              r + Decode(src[i..], plus) == if x1 == 16 || x2 == 16 then r + [PERCENT] + Decode(src[i + 1..], plus)
                                            else r + [16 * x1 + x2] + Decode(src[i + 3..], plus)
  {
    hide Decode, HexValue;
    DecodeAt(src, i, plus);
  }

  lemma DecodeNothing(plus: bool)
    ensures Decode([], plus) == []
  {
  }

  // ---- decoding undoes quoting ----

  lemma {:induction false} QuoteArgFirst(s: seq<byte>)
    requires s != []
    ensures QuoteArg(s) == QuoteArgByte(s[0]) + QuoteArg(s[1..])
  {
    hide QuoteArgByte;
    if |s| > 1 {
      QuoteArgFirst(s[..|s| - 1]);
      assert s[1..][..|s| - 2] == s[..|s| - 1][1..];
      assert QuoteArg(s[1..]) == QuoteArg(s[..|s| - 1][1..]) + QuoteArgByte(s[|s| - 1]);
    }
  }

  lemma {:induction false} QuotePathFirst(s: seq<byte>)
    requires s != []
    ensures QuotePathBytes(s) == QuotePathByte(s[0]) + QuotePathBytes(s[1..])
  {
    hide QuotePathByte;
    if |s| > 1 {
      QuotePathFirst(s[..|s| - 1]);
      assert s[1..][..|s| - 2] == s[..|s| - 1][1..];
    }
  }

  lemma DecodeEscape(c: byte, rest: seq<byte>, plus: bool)
    ensures Decode(Escape(c) + rest, plus) == [c] + Decode(rest, plus)
  {
    assert (Escape(c) + rest)[3..] == rest;
  }

  lemma DecodeByte(c: byte, rest: seq<byte>, plus: bool)
    requires c != PERCENT
    ensures Decode([c] + rest, plus) == [if plus && c == PLUS then SPACE else c] + Decode(rest, plus)
  {
    assert ([c] + rest)[1..] == rest;
  }

  lemma {:induction false} ArgRoundTrip(s: seq<byte>)
    ensures Decode(QuoteArg(s), true) == s
  {
    hide Decode, Escape, HexValue, UpperHex;
    DecodeNothing(true);
    if s != [] {
      QuoteArgFirst(s);
      var c, rest := s[0], QuoteArg(s[1..]);
      if c == SPACE {
        DecodeByte(PLUS, rest, true);
      } else if ArgEscapes(c) {
        DecodeEscape(c, rest, true);
      } else {
        DecodeByte(c, rest, true);
      }
      ArgRoundTrip(s[1..]);
    }
  }

  lemma {:induction false} PathRoundTrip(s: seq<byte>)
    ensures Decode(QuotePath(s), false) == s
  {
    if s == [STAR] {
    } else {
      PathBytesRoundTrip(s);
    }
  }

  lemma {:induction false} PathBytesRoundTrip(s: seq<byte>)
    ensures Decode(QuotePathBytes(s), false) == s
  {
    hide Decode, Escape, HexValue, UpperHex;
    DecodeNothing(false);
    if s != [] {
      QuotePathFirst(s);
      var c, rest := s[0], QuotePathBytes(s[1..]);
      if PathEscapes(c) {
        DecodeEscape(c, rest, false);
      } else {
        DecodeByte(c, rest, false);
      }
      PathBytesRoundTrip(s[1..]);
    }
  }

  /** The bytes a quoted argument is made of: no separator of the query string among them. */
  lemma {:induction false} QuotedArgBytes(s: seq<byte>)
    ensures forall k :: 0 <= k < |QuoteArg(s)| ==> QuoteArg(s)[k] != AMP && QuoteArg(s)[k] != EQUALS
  {
    if s != [] { QuotedArgBytes(s[..|s| - 1]); }
  }

  /** A quoted path contains no control byte, no '?' and no '#'. */
  lemma {:induction false} QuotedPathBytes(s: seq<byte>)
    ensures forall k :: 0 <= k < |QuotePathBytes(s)| ==>
              var c := QuotePathBytes(s)[k]; c > 32 && c != 127 && c != QUESTION && c != HASH
  {
    if s != [] { QuotedPathBytes(s[..|s| - 1]); }
  }

  // ---- the tables ----

  /** Letters, digits and - . _ ~ */
  predicate Unreserved(c: byte)
  {
    48 <= c <= 57 || 65 <= c <= 90 || 97 <= c <= 122 || c == 45 || c == 46 || c == 95 || c == 126
  }

  /** An argument keeps exactly the unreserved bytes; a blank is written as a plus sign, all else as an escape. */
  lemma ArgBytes(c: byte)
    ensures QuoteArg([c]) == if Unreserved(c) then [c] else if c == 32 then [43] else Escape(c)
  {
    var s: seq<byte> := [c];
    assert s[..0] == [] && QuoteArg(s) == QuoteArg(s[..0]) + QuoteArgByte(c);
  }

  /** A path keeps the unreserved bytes and $ & + , / : ; = @, and a path that is an asterisk; all else is an escape. */
  lemma PathBytes(c: byte)
    ensures QuotePath([c]) == if Unreserved(c) || c in {36, 38, 43, 44, 47, 58, 59, 61, 64} || c == 42 then [c] else Escape(c)
  {
    var s: seq<byte> := [c];
    assert s[..0] == [] && QuotePathBytes(s) == QuotePathBytes(s[..0]) + QuotePathByte(c);
  }

  /** What quotes a text quotes it byte by byte. */
  lemma QuotedByByte(a: seq<byte>, c: byte)
    ensures QuoteArg(a + [c]) == QuoteArg(a) + QuoteArg([c])
    ensures QuotePathBytes(a + [c]) == QuotePathBytes(a) + QuotePathBytes([c])
  {
    hide QuoteArgByte, QuotePathByte;
    var s, t := a + [c], [c];
    assert s[..|a|] == a && t[..0] == [] && s[|a|] == c;
    assert QuoteArg(t) == QuoteArg(t[..0]) + QuoteArgByte(c) && QuotePathBytes(t) == QuotePathBytes(t[..0]) + QuotePathByte(c);
  }

  // ---- decoding piece by piece ----

  predicate IsHex(c: byte)
  {
    48 <= c <= 57 || 65 <= c <= 70 || 97 <= c <= 102
  }

  /** A byte that stands for itself, a plus sign, or an escape. */
  datatype Unit = Literal(c: byte) | Plus | Coded(hi: byte, lo: byte)
  {
    predicate Valid() { (Literal? ==> c != 37 && c != 43) && (Coded? ==> IsHex(hi) && IsHex(lo)) }

    function Text(): seq<byte>
    {
      match this
      case Literal(c) => [c]
      case Plus => [43]
      case Coded(hi, lo) => [37, hi, lo]
    }

    function Meaning(plus: bool): byte
      requires Valid()
    {
      match this
      case Literal(c) => c
      case Plus => if plus then 32 else 43
      case Coded(hi, lo) => 16 * HexValue(hi) + HexValue(lo)
    }
  }

  function UnitsText(us: seq<Unit>): seq<byte>
  {
    if us == [] then [] else us[0].Text() + UnitsText(us[1..])
  }

  function UnitsMeaning(us: seq<Unit>, plus: bool): seq<byte>
    requires forall i :: 0 <= i < |us| ==> us[i].Valid()
  {
    if us == [] then [] else [us[0].Meaning(plus)] + UnitsMeaning(us[1..], plus)
  }

  /** A text of such units is decoded to what they mean, whatever follows it. */
  lemma {:induction false} UnitsAreDecoded(us: seq<Unit>, rest: seq<byte>, plus: bool)
    requires forall i :: 0 <= i < |us| ==> us[i].Valid()
    ensures Decode(UnitsText(us) + rest, plus) == UnitsMeaning(us, plus) + Decode(rest, plus)
  {
    hide Decode;
    if us == [] {
      assert [] + rest == rest && [] + Decode(rest, plus) == Decode(rest, plus);
    } else {
      var tail := UnitsText(us[1..]) + rest;
      UnitsAreDecoded(us[1..], rest, plus);
      assert UnitsText(us) + rest == us[0].Text() + tail;
      UnitIsDecoded(us[0], tail, plus);
      assert [us[0].Meaning(plus)] + (UnitsMeaning(us[1..], plus) + Decode(rest, plus))
             == UnitsMeaning(us, plus) + Decode(rest, plus);
    }
  }

  lemma UnitIsDecoded(u: Unit, tail: seq<byte>, plus: bool)
    requires u.Valid()
    ensures Decode(u.Text() + tail, plus) == [u.Meaning(plus)] + Decode(tail, plus)
  {
    hide Decode;
    var s := u.Text() + tail;
    DecodeAt(s, 0, plus);
    assert s[0..] == s;
    assert u.Coded? ==> s[3..] == tail;
    assert !u.Coded? ==> s[1..] == tail;
  }

  /** A percent sign that begins no escape stays, and what follows it is decoded; with fewer than two bytes behind it all
      of them stay. */
  lemma StrayPercentStays(tail: seq<byte>, plus: bool)
    requires |tail| >= 2 ==> !IsHex(tail[0]) || !IsHex(tail[1])
    ensures Decode([37] + tail, plus) == [37] + if |tail| < 2 then tail else Decode(tail, plus)
  {
    hide Decode;
    var s := [37] + tail;
    DecodeAt(s, 0, plus);
    assert s[0..] == s && s[1..] == tail;
  }
}
