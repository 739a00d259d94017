/** Google Test's generator and its in-place shuffle of a range of a vector. */
module Shuffling {
  const MAX_RANGE: nat := 0x8000_0000

  class Vector<E> {
    var elements: seq<E>

    constructor ()
      ensures elements == []
    {
      elements := [];
    }
  }

  function NextState(state: nat): nat {
    (1103515245 * state + 12345) % 0x1_0000_0000 % MAX_RANGE
  }

  const MULTIPLIER_INVERSE: nat := 1857678181

  /** The state the generator was in before. */
  function PreviousState(state: nat): nat {
    MULTIPLIER_INVERSE * (state + MAX_RANGE - 12345) % MAX_RANGE
  }

  lemma Residue(a: int, b: nat, k: int)
    requires a == b + k * MAX_RANGE && b < MAX_RANGE
    ensures a % MAX_RANGE == b
  {
  }

  /** The wrap-around of the 32-bit product does not show in the state. */
  lemma NextStateIsCongruent(state: nat)
    ensures NextState(state) == (1103515245 * state + 12345) % MAX_RANGE
  {
    var x := 1103515245 * state + 12345;
    var wrapped := x % 0x1_0000_0000;
    assert x == wrapped + 2 * (x / 0x1_0000_0000) * MAX_RANGE;
    Residue(x, wrapped % MAX_RANGE, wrapped / MAX_RANGE + 2 * (x / 0x1_0000_0000));
  }

  /** No two states have the same successor, and each is one: the generator's
      step is one to one on all its states. */
  lemma StepIsReversible(state: nat)
    requires state < MAX_RANGE
    ensures PreviousState(NextState(state)) == state && NextState(PreviousState(state)) == state
  {
    var x := 1103515245 * state + 12345;
    var k := x / MAX_RANGE;
    NextStateIsCongruent(state);
    assert NextState(state) == x - k * MAX_RANGE;
    Residue(MULTIPLIER_INVERSE * (NextState(state) + MAX_RANGE - 12345), state,
            954594553 * state + MULTIPLIER_INVERSE * (1 - k));
    var y := MULTIPLIER_INVERSE * (state + MAX_RANGE - 12345);
    var j := y / MAX_RANGE;
    NextStateIsCongruent(PreviousState(state));
    assert PreviousState(state) == y - j * MAX_RANGE;
    Residue(1103515245 * PreviousState(state) + 12345, state,
            1 + 954594553 * (state + MAX_RANGE - 12345) - 1103515245 * j);
  }

  /** The linear congruential generator of glibc's rand(3), on 32-bit words. */
  class Random {
    var state: nat

    constructor (seed: nat)
      ensures state == seed
    {
      state := seed;
    }

    method Generate(range: nat) returns (n: nat)
      requires 0 < range <= MAX_RANGE
      modifies this
      ensures state == NextState(old(state))
      ensures n == state % range
    {
      state := (1103515245 * state + 12345) % 0x1_0000_0000 % MAX_RANGE;
      n := state % range;
    }
  }

  // ----- Permutations -----

  function Identity(n: nat): seq<int> {
    seq(n, i => i)
  }

  /** The same elements in [begin, end), and the same ones in place elsewhere. */
  ghost predicate ShuffledWithin<E>(s: seq<E>, t: seq<E>, begin: nat, end: nat) {
    && begin <= end <= |s| == |t|
    && s[..begin] == t[..begin] && s[end..] == t[end..]
    && multiset(s[begin..end]) == multiset(t[begin..end])
  }

  function Swapped<E>(s: seq<E>, i: nat, j: nat): seq<E>
    requires i < |s| && j < |s|
  {
    s[i := s[j]][j := s[i]]
  }

  lemma SwapShuffles<E>(s: seq<E>, i: nat, j: nat, begin: nat, end: nat)
    requires begin <= i < end <= |s| && begin <= j < end
    ensures ShuffledWithin(s, Swapped(s, i, j), begin, end)
  {
    var t := Swapped(s, i, j);
    assert t[begin..end] == Swapped(s[begin..end], i - begin, j - begin);
  }

  /** A choice for every width from the given one down to two. */
  predicate ValidChoices(width: nat, choices: seq<nat>) {
    && |choices| == (if width >= 2 then width - 1 else 0)
    && forall k :: 0 <= k < |choices| ==> choices[k] < width - k
  }

  /** Fisher-Yates from [begin, begin + width) under the given choices. */
  function FisherYates<E>(s: seq<E>, begin: nat, width: nat, choices: seq<nat>): (t: seq<E>)
    requires begin + width <= |s| && ValidChoices(width, choices)
    ensures |t| == |s|
    decreases width
  {
    if width < 2 then s
    else FisherYates(Swapped(s, begin + choices[0], begin + width - 1), begin, width - 1, choices[1..])
  }

  /** The choices the generator makes from a state. */
  function Draws(state: nat, width: nat): (choices: seq<nat>)
    ensures ValidChoices(width, choices)
    decreases width
  {
    if width < 2 then []
    else [NextState(state) % width] + Draws(NextState(state), width - 1)
  }

  /** The state after them. */
  function AfterDraws(state: nat, width: nat): nat
    decreases width
  {
    if width < 2 then state else AfterDraws(NextState(state), width - 1)
  }

  lemma DrawsUnfold(state: nat, width: nat)
    requires width >= 2
    ensures Draws(state, width)[0] == NextState(state) % width
    ensures Draws(state, width)[1..] == Draws(NextState(state), width - 1)
  {
  }

  lemma FisherYatesUnfolds<E>(s: seq<E>, begin: nat, width: nat, choices: seq<nat>)
    requires width >= 2 && begin + width <= |s| && ValidChoices(width, choices)
    ensures ValidChoices(width - 1, choices[1..])
    ensures FisherYates(s, begin, width, choices)
            == FisherYates(Swapped(s, begin + choices[0], begin + width - 1), begin, width - 1, choices[1..])
  {
  }

  /** The shuffle still to do, and the state still to draw from. */
  ghost function StillToDo<E>(s: seq<E>, begin: nat, width: nat, state: nat): seq<E>
    requires begin + width <= |s|
  {
    FisherYates(s, begin, width, Draws(state, width))
  }

  /** A swap of the loop keeps what comes out in the end. */
  lemma SwapAdvances<E>(s: seq<E>, begin: nat, width: nat, state: nat)
    requires width >= 2 && begin + width <= |s|
    ensures StillToDo(Swapped(s, begin + NextState(state) % width, begin + width - 1), begin, width - 1, NextState(state))
            == StillToDo(s, begin, width, state)
  {
    DrawsUnfold(state, width);
    FisherYatesUnfolds(s, begin, width, Draws(state, width));
  }

  lemma NothingToDo<E>(s: seq<E>, begin: nat, width: nat, state: nat)
    requires width < 2 && begin + width <= |s|
    ensures StillToDo(s, begin, width, state) == s
  {
  }

  /** Fisher-Yates over [begin, end). */
  method ShuffleRange<E>(random: Random, begin: nat, end: nat, v: Vector<E>)
    requires begin <= end <= |v.elements| < MAX_RANGE
    modifies random, v
    ensures v.elements == FisherYates(old(v.elements), begin, end - begin, Draws(old(random.state), end - begin))
    ensures random.state == AfterDraws(old(random.state), end - begin)
  {
    ghost var goal := StillToDo(v.elements, begin, end - begin, random.state);
    var rangeWidth: nat := end - begin;
    while rangeWidth >= 2
      invariant begin + rangeWidth <= |v.elements| < MAX_RANGE
      invariant StillToDo(v.elements, begin, rangeWidth, random.state) == goal
      invariant AfterDraws(random.state, rangeWidth) == AfterDraws(old(random.state), end - begin)
    {
      SwapAdvances(v.elements, begin, rangeWidth, random.state);
      var lastInRange := begin + rangeWidth - 1;
      var offset := random.Generate(rangeWidth);
      var selected := begin + offset;
      v.elements := Swapped(v.elements, selected, lastInRange);
      rangeWidth := rangeWidth - 1;
    }
    NothingToDo(v.elements, begin, rangeWidth, random.state);
  }

  /** Whatever is drawn, the range is permuted and the rest stays put. */
  lemma {:induction false} FisherYatesShuffles<E>(s: seq<E>, begin: nat, width: nat, choices: seq<nat>)
    requires begin + width <= |s| && ValidChoices(width, choices)
    ensures ShuffledWithin(s, FisherYates(s, begin, width, choices), begin, begin + width)
    decreases width
  {
    if width < 2 {
      NothingShuffled(s, begin, begin + width);
    } else {
      FisherYatesUnfolds(s, begin, width, choices);
      var i, last := begin + choices[0], begin + width - 1;
      var t := Swapped(s, i, last);
      FisherYatesShuffles(t, begin, width - 1, choices[1..]);
      SwapThenShuffle(s, i, FisherYates(t, begin, width - 1, choices[1..]), begin, width);
    }
  }

  lemma NothingShuffled<E>(s: seq<E>, begin: nat, end: nat)
    requires begin <= end <= |s|
    ensures ShuffledWithin(s, s, begin, end)
  {
  }

  lemma SwapThenShuffle<E>(s: seq<E>, i: nat, u: seq<E>, begin: nat, width: nat)
    requires begin <= i < begin + width <= |s|
    requires ShuffledWithin(Swapped(s, i, begin + width - 1), u, begin, begin + width - 1)
    ensures ShuffledWithin(s, u, begin, begin + width)
  {
    var last := begin + width - 1;
    SwapShuffles(s, i, last, begin, begin + width);
    NarrowerShuffle(Swapped(s, i, last), u, begin, last, begin + width);
  }

  lemma NarrowerShuffle<E>(s: seq<E>, t: seq<E>, begin: nat, end: nat, end': nat)
    requires ShuffledWithin(s, t, begin, end) && end <= end' <= |s|
    ensures ShuffledWithin(s, t, begin, end')
  {
    assert s[begin..end'] == s[begin..end] + s[end..][..end' - end];
    assert t[begin..end'] == t[begin..end] + t[end..][..end' - end];
    assert s[end'..] == s[end..][end' - end..] && t[end'..] == t[end..][end' - end..];
  }

  /** Every arrangement of the range is the outcome of some choices. */
  lemma {:induction false} FisherYatesReachesAll<E>(s: seq<E>, t: seq<E>, begin: nat, width: nat) returns (choices: seq<nat>)
    requires ShuffledWithin(s, t, begin, begin + width)
    ensures ValidChoices(width, choices) && FisherYates(s, begin, width, choices) == t
    decreases width
  {
    if width < 2 {
      choices := [];
      SmallShuffle(s, t, begin, width);
    } else {
      var k := PickLast(s, t, begin, width);
      var rest := FisherYatesReachesAll(Swapped(s, k, begin + width - 1), t, begin, width - 1);
      choices := OneMoreChoice(s, begin, width, k, rest);
    }
  }

  lemma OneMoreChoice<E>(s: seq<E>, begin: nat, width: nat, k: nat, rest: seq<nat>) returns (choices: seq<nat>)
    requires width >= 2 && begin + width <= |s| && begin <= k < begin + width && ValidChoices(width - 1, rest)
    ensures ValidChoices(width, choices)
    ensures FisherYates(s, begin, width, choices)
            == FisherYates(Swapped(s, k, begin + width - 1), begin, width - 1, rest)
  {
    choices := [k - begin] + rest;
    assert choices[1..] == rest;
    forall i | 0 <= i < |choices|
      ensures choices[i] < width - i
    {
      assert i > 0 ==> choices[i] == rest[i - 1];
    }
  }

  lemma SmallShuffle<E>(s: seq<E>, t: seq<E>, begin: nat, width: nat)
    requires width < 2 && ShuffledWithin(s, t, begin, begin + width)
    ensures s == t
  {
    assert s == s[..begin] + s[begin..begin + width] + s[begin + width..];
    assert t == t[..begin] + t[begin..begin + width] + t[begin + width..];
    if width == 1 {
      assert t[begin..begin + width] == [t[begin]];
      assert t[begin] in multiset(s[begin..begin + width]);
      assert s[begin..begin + width] == [s[begin]];
    }
  }

  /** A choice that puts the right element last. */
  lemma PickLast<E>(s: seq<E>, t: seq<E>, begin: nat, width: nat) returns (k: nat)
    requires width >= 1 && ShuffledWithin(s, t, begin, begin + width)
    ensures begin <= k < begin + width
    ensures ShuffledWithin(Swapped(s, k, begin + width - 1), t, begin, begin + width - 1)
  {
    var last := begin + width - 1;
    k := Origin(s, t, begin, width, last);
    SwapShuffles(s, k, last, begin, begin + width);
    LastInPlace(Swapped(s, k, last), t, s, begin, width);
  }

  /** Where the element wanted at a position comes from. */
  lemma Origin<E>(s: seq<E>, t: seq<E>, begin: nat, width: nat, at: nat) returns (k: nat)
    requires ShuffledWithin(s, t, begin, begin + width) && begin <= at < begin + width
    ensures begin <= k < begin + width && s[k] == t[at]
  {
    assert t[begin..begin + width][at - begin] in multiset(t[begin..begin + width]);
    assert t[at] in s[begin..begin + width];
    var i :| 0 <= i < width && s[begin..begin + width][i] == t[at];
    k := begin + i;
  }

  /** Once the last position is right, the rest of the range remains to be arranged. */
  lemma LastInPlace<E>(s': seq<E>, t: seq<E>, s: seq<E>, begin: nat, width: nat)
    requires width >= 1 && ShuffledWithin(s, s', begin, begin + width) && ShuffledWithin(s, t, begin, begin + width)
    requires s'[begin + width - 1] == t[begin + width - 1]
    ensures ShuffledWithin(s', t, begin, begin + width - 1)
  {
    var last := begin + width - 1;
    assert s'[begin..begin + width] == s'[begin..last] + [s'[last]];
    assert t[begin..begin + width] == t[begin..last] + [t[last]];
    assert multiset(s'[begin..last]) == multiset(s'[begin..begin + width]) - multiset{s'[last]};
    assert multiset(t[begin..last]) == multiset(t[begin..begin + width]) - multiset{t[last]};
    assert s'[last..] == [s'[last]] + s'[begin + width..];
    assert t[last..] == [t[last]] + t[begin + width..];
  }

  // ----- Index vectors -----

  /** Every index from 0 to n exactly once. */
  ghost predicate IsPermutation(indices: seq<int>, n: nat) {
    multiset(indices) == multiset(Identity(n))
  }

  lemma PermutationSize(indices: seq<int>, n: nat)
    requires IsPermutation(indices, n)
    ensures |indices| == n
    ensures forall i :: 0 <= i < n ==> 0 <= indices[i] < n
  {
    assert |multiset(indices)| == |multiset(Identity(n))|;
    forall i | 0 <= i < |indices|
      ensures 0 <= indices[i] < n
    {
      assert indices[i] in multiset(Identity(n));
    }
  }

  lemma PermutationGrows(indices: seq<int>, n: nat)
    requires IsPermutation(indices, n)
    ensures IsPermutation(indices + [n], n + 1)
  {
    assert Identity(n + 1) == Identity(n) + [n];
  }

  lemma {:induction false} PermutationDistinct(indices: seq<int>, n: nat)
    requires IsPermutation(indices, n)
    ensures forall i, j :: 0 <= i < j < |indices| ==> indices[i] != indices[j]
  {
    forall i, j | 0 <= i < j < |indices|
      ensures indices[i] != indices[j]
    {
      if indices[i] == indices[j] {
        var x := indices[i];
        assert indices == indices[..i] + [x] + indices[i + 1..j] + [x] + indices[j + 1..];
        assert multiset(indices)[x] >= 2;
        IdentityCounts(n, x);
      }
    }
  }

  lemma {:induction false} IdentityCounts(n: nat, x: int)
    ensures multiset(Identity(n))[x] == if 0 <= x < n then 1 else 0
  {
    if n > 0 {
      IdentityCounts(n - 1, x);
      assert Identity(n) == Identity(n - 1) + [n - 1];
    }
  }

  /** A shuffle of the whole vector keeps it a permutation. */
  lemma ShuffleKeepsPermutation(s: seq<int>, t: seq<int>, begin: nat, end: nat, n: nat)
    requires ShuffledWithin(s, t, begin, end) && IsPermutation(s, n)
    ensures IsPermutation(t, n)
  {
    assert s == s[..begin] + s[begin..end] + s[end..];
    assert t == t[..begin] + t[begin..end] + t[end..];
  }
}
