/** Codings that read one symbol or a pair of symbols at a time, and write one or two.  UTF-16
    is one of them; nothing here depends on what the symbols are. */
module Pairing {
  /** Reads `s` from the left, joining every two neighbours that form a pair. */
  function Pairwise<T, P>(s: seq<T>, pair: (T, T) -> bool, both: (T, T) -> P, one: T -> P): seq<P> {
    if s == [] then []
    else if |s| >= 2 && pair(s[0], s[1]) then [both(s[0], s[1])] + Pairwise(s[2..], pair, both, one)
    else [one(s[0])] + Pairwise(s[1..], pair, both, one)
  }

  /** Writes every element in turn. */
  function Each<P, T>(cs: seq<P>, emit: P -> seq<T>): seq<T> {
    if cs == [] then [] else emit(cs[0]) + Each(cs[1..], emit)
  }

  lemma PairFirst<T, P>(a: T, b: T, tail: seq<T>, pair: (T, T) -> bool, both: (T, T) -> P, one: T -> P)
    requires pair(a, b)
    ensures Pairwise([a, b] + tail, pair, both, one) == [both(a, b)] + Pairwise(tail, pair, both, one)
  {
    assert ([a, b] + tail)[2..] == tail;
  }

  lemma OneFirst<T, P>(a: T, tail: seq<T>, pair: (T, T) -> bool, both: (T, T) -> P, one: T -> P)
    requires tail == [] || !pair(a, tail[0])
    ensures Pairwise([a] + tail, pair, both, one) == [one(a)] + Pairwise(tail, pair, both, one)
  {
    assert ([a] + tail)[1..] == tail;
  }

  /** One turn of a loop that stands at index `ptr`. */
  lemma PairStep<T, P>(s: seq<T>, ptr: nat, pair: (T, T) -> bool, both: (T, T) -> P, one: T -> P)
    requires ptr < |s|
    ensures Pairwise(s[ptr..], pair, both, one) ==
            if ptr + 1 < |s| && pair(s[ptr], s[ptr + 1])
            then [both(s[ptr], s[ptr + 1])] + Pairwise(s[ptr + 2..], pair, both, one)
            else [one(s[ptr])] + Pairwise(s[ptr + 1..], pair, both, one)
  {
    if ptr + 1 < |s| && pair(s[ptr], s[ptr + 1]) {
      assert s[ptr..] == [s[ptr], s[ptr + 1]] + s[ptr + 2..];
      PairFirst(s[ptr], s[ptr + 1], s[ptr + 2..], pair, both, one);
    } else {
      assert s[ptr..] == [s[ptr]] + s[ptr + 1..];
      OneFirst(s[ptr], s[ptr + 1..], pair, both, one);
    }
  }

  lemma EachFirst<P, T>(c: P, rest: seq<P>, emit: P -> seq<T>)
    ensures Each([c] + rest, emit) == emit(c) + Each(rest, emit)
  {
    assert ([c] + rest)[1..] == rest;
  }

  /** If every pair and every single symbol is written back as it was, so is every sequence. */
  lemma {:induction false} EachUndoesPairwise<T(!new), P>(
      s: seq<T>, pair: (T, T) -> bool, both: (T, T) -> P, one: T -> P, emit: P -> seq<T>)
    requires forall a, b :: pair(a, b) ==> emit(both(a, b)) == [a, b]
    requires forall a :: emit(one(a)) == [a]
    ensures Each(Pairwise(s, pair, both, one), emit) == s
  {
    if |s| >= 2 && pair(s[0], s[1]) {
      EachUndoesPairwise(s[2..], pair, both, one, emit);
      EachFirst(both(s[0], s[1]), Pairwise(s[2..], pair, both, one), emit);
      assert s == [s[0], s[1]] + s[2..];
    } else if s != [] {
      EachUndoesPairwise(s[1..], pair, both, one, emit);
      EachFirst(one(s[0]), Pairwise(s[1..], pair, both, one), emit);
      assert s == [s[0]] + s[1..];
    }
  }

  lemma {:induction false} PairwiseKeeps<T(!new), P>(s: seq<T>, pair: (T, T) -> bool, both: (T, T) -> P, one: T -> P,
                                                     good: P -> bool)
    requires forall a, b :: pair(a, b) ==> good(both(a, b))
    requires forall a :: good(one(a))
    ensures forall i :: 0 <= i < |Pairwise(s, pair, both, one)| ==> good(Pairwise(s, pair, both, one)[i])
  {
    if |s| >= 2 && pair(s[0], s[1]) {
      PairwiseKeeps(s[2..], pair, both, one, good);
    } else if s != [] {
      PairwiseKeeps(s[1..], pair, both, one, good);
    }
  }
}
