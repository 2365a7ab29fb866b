/** Sums of what the elements of a list own, and how they react to one local change.
    The protocol models use them to state conservation: nothing is lost, nothing is duplicated. */
module Ledger {

  datatype Option<+T> = None | Some(value: T)

  /** How often the elements of `s` own `a`, all together. */
  ghost function Tally<T, A>(s: seq<T>, owns: (T, A) -> nat, a: A): nat
  {
    if s == [] then 0 else Tally(s[..|s| - 1], owns, a) + owns(s[|s| - 1], a)
  }

  lemma {:induction false} TallyAppend<T, A>(s: seq<T>, t: seq<T>, owns: (T, A) -> nat, a: A)
    ensures Tally(s + t, owns, a) == Tally(s, owns, a) + Tally(t, owns, a)
  {
    if t == [] {
      assert s + t == s;
    } else {
      assert (s + t)[..|s + t| - 1] == s + t[..|t| - 1];
      TallyAppend(s, t[..|t| - 1], owns, a);
    }
  }

  lemma TallyPush<T, A>(s: seq<T>, x: T, owns: (T, A) -> nat, a: A)
    ensures Tally(s + [x], owns, a) == Tally(s, owns, a) + owns(x, a)
  {
    assert (s + [x])[..|s|] == s;
  }

  /** Taking out element `i`. */
  lemma TallyRemove<T, A>(s: seq<T>, i: nat, owns: (T, A) -> nat, a: A)
    requires i < |s|
    ensures Tally(s, owns, a) == Tally(s[..i] + s[i + 1..], owns, a) + owns(s[i], a)
  {
    hide Tally;
    var front, back := s[..i], s[i + 1..];
    assert s == (front + [s[i]]) + back;
    TallyAppend(front + [s[i]], back, owns, a);
    TallyPush(front, s[i], owns, a);
    TallyAppend(front, back, owns, a);
  }

  /** Replacing element `i` by `x`. */
  lemma TallyUpdate<T, A>(s: seq<T>, i: nat, x: T, owns: (T, A) -> nat, a: A)
    requires i < |s|
    ensures Tally(s[i := x], owns, a) == Tally(s, owns, a) - owns(s[i], a) + owns(x, a)
  {
    hide Tally;
    TallyRemove(s, i, owns, a);
    TallyRemove(s[i := x], i, owns, a);
    assert s[i := x][..i] == s[..i] && s[i := x][i + 1..] == s[i + 1..];
  }

  /** The shares of two different elements are both part of the tally. */
  lemma TallyTwo<T, A>(s: seq<T>, i: nat, j: nat, owns: (T, A) -> nat, a: A)
    requires i < j < |s|
    ensures owns(s[i], a) + owns(s[j], a) <= Tally(s, owns, a)
  {
    hide Tally;
    TallyRemove(s, j, owns, a);
    TallyRemove(s[..j] + s[j + 1..], i, owns, a);
  }

  /** Whatever is owned, some element owns. */
  lemma {:induction false} TallyOwner<T, A>(s: seq<T>, owns: (T, A) -> nat, a: A) returns (i: nat)
    requires Tally(s, owns, a) > 0
    ensures i < |s| && owns(s[i], a) > 0
  {
    if owns(s[|s| - 1], a) > 0 {
      i := |s| - 1;
    } else {
      i := TallyOwner(s[..|s| - 1], owns, a);
    }
  }

  /** Sums of numbers, for counters. */
  ghost function Count<T>(s: seq<T>, weight: T -> int): int
  {
    if s == [] then 0 else Count(s[..|s| - 1], weight) + weight(s[|s| - 1])
  }

  lemma {:induction false} CountUpdate<T>(s: seq<T>, i: nat, x: T, weight: T -> int)
    requires i < |s|
    ensures Count(s[i := x], weight) == Count(s, weight) - weight(s[i]) + weight(x)
  {
    if i == |s| - 1 {
      assert s[i := x][..|s| - 1] == s[..|s| - 1];
    } else {
      CountUpdate(s[..|s| - 1], i, x, weight);
      assert s[i := x][..|s| - 1] == s[..|s| - 1][i := x];
    }
  }

  lemma CountPush<T>(s: seq<T>, x: T, weight: T -> int)
    ensures Count(s + [x], weight) == Count(s, weight) + weight(x)
  {
    assert (s + [x])[..|s|] == s;
  }

  /** A list without repetitions of indices, each of weight at least one, is no longer than the total. */
  lemma {:induction false} CountBoundsIndices<T>(s: seq<T>, q: seq<nat>, weight: T -> int, zero: T)
    requires forall x :: weight(x) >= 0
    requires weight(zero) == 0
    requires forall k :: 0 <= k < |q| ==> q[k] < |s| && weight(s[q[k]]) >= 1
    requires forall j, k :: 0 <= j < k < |q| ==> q[j] != q[k]
    ensures |q| <= Count(s, weight)
    decreases |q|
  {
    if q == [] {
      CountNonNegative(s, weight);
    } else {
      var last := q[|q| - 1];
      CountUpdate(s, last, zero, weight);
      CountBoundsIndices(s[last := zero], q[..|q| - 1], weight, zero);
    }
  }

  lemma {:induction false} CountNonNegative<T>(s: seq<T>, weight: T -> int)
    requires forall x :: weight(x) >= 0
    ensures Count(s, weight) >= 0
  {
    if s != [] {
      CountNonNegative(s[..|s| - 1], weight);
    }
  }

  lemma {:induction false} CountRemove<T>(s: seq<T>, i: nat, weight: T -> int)
    requires i < |s|
    ensures Count(s[..i] + s[i + 1..], weight) == Count(s, weight) - weight(s[i])
  {
    var n := |s| - 1;
    if i == n {
      assert s[..i] + s[i + 1..] == s[..n];
    } else {
      CountRemove(s[..n], i, weight);
      assert (s[..i] + s[i + 1..])[..n - 1] == s[..n][..i] + s[..n][i + 1..];
    }
  }

  /** What is counted is somewhere. */
  lemma {:induction false} CountMember<T>(s: seq<T>, i: nat, weight: T -> int)
    requires i < |s| && forall x :: weight(x) >= 0
    ensures Count(s, weight) >= weight(s[i])
  {
    if i == |s| - 1 {
      CountNonNegative(s[..i], weight);
    } else {
      CountMember(s[..|s| - 1], i, weight);
    }
  }

  lemma CountTwo<T>(s: seq<T>, i: nat, j: nat, weight: T -> int)
    requires i < j < |s| && forall x :: weight(x) >= 0
    ensures Count(s, weight) >= weight(s[i]) + weight(s[j])
  {
    CountRemove(s, j, weight);
    CountMember(s[..j] + s[j + 1..], i, weight);
  }

  // ---- lists in the order of time ----

  /** The members of s are listed by when they came, each before n. */
  ghost predicate Ascending(s: seq<nat>, at: nat -> int, n: int)
  {
    && (forall i :: 0 <= i < |s| ==> 0 <= at(s[i]) < n)
    && (forall i, j :: 0 <= i < j < |s| ==> at(s[i]) < at(s[j]))
  }

  lemma AscendingSlice(s: seq<nat>, at: nat -> int, at': nat -> int, n: int, lo: nat, hi: nat)
    requires Ascending(s, at, n) && lo <= hi <= |s| && forall x :: x in s ==> at'(x) == at(x)
    ensures Ascending(s[lo..hi], at', n + 1)
  {
    assert forall i :: 0 <= i < hi - lo ==> s[lo..hi][i] == s[lo + i] && s[lo + i] in s;
  }

  lemma AscendingPush(s: seq<nat>, x: nat, at: nat -> int, at': nat -> int, n: int)
    requires Ascending(s, at, n) && n >= 0 && (forall y :: y in s ==> at'(y) == at(y)) && at'(x) == n
    ensures Ascending(s + [x], at', n + 1)
  {
    assert forall i :: 0 <= i < |s| ==> (s + [x])[i] == s[i] && s[i] in s;
  }
}
