/** Google Test's execution order: death test cases first, the test cases and the
    tests inside each shuffled and restored through vectors of indices. */
module TestOrder {
  import opened CStrings
  import opened GlobFilter
  import opened Shuffling

  const DEATH_TEST_CASE_FILTER := "*DeathTest:*DeathTest/*"

  /** Whether a name is one of the death test cases a filter picks out. */
  ghost predicate IsDeath(filter: string, name: string) {
    SomePieceAccepts(Split(filter), name)
  }

  /** The names of death test cases end in "DeathTest", or contain "DeathTest/" where parameters follow. */
  lemma DeathTestCaseNames(name: string)
    ensures IsDeath(DEATH_TEST_CASE_FILTER, name) <==> EndsIn(name, "DeathTest") || Contains(name, "DeathTest/")
  {
    FilterText();
    EndsOrContains("DeathTest", "DeathTest/", name);
  }

  lemma FilterText()
    ensures DEATH_TEST_CASE_FILTER == ("*" + "DeathTest") + ":" + ("*" + ("DeathTest/" + "*"))
  {
  }

  /** The first deaths positions hold the indices below deaths. */
  ghost predicate DeathsFirst(indices: seq<int>, deaths: nat) {
    forall i :: 0 <= i < |indices| ==> (indices[i] < deaths <==> i < deaths)
  }

  /** A shuffle inside a range of positions moves only what was there. */
  lemma ShuffleKeepsMembers(s: seq<int>, t: seq<int>, begin: nat, end: nat, i: nat)
    requires ShuffledWithin(s, t, begin, end) && i < |t|
    ensures begin <= i < end ==> exists j :: begin <= j < end && s[j] == t[i]
    ensures !(begin <= i < end) ==> t[i] == s[i]
  {
    if begin <= i < end {
      assert t[begin..end][i - begin] in multiset(t[begin..end]);
      assert t[i] in s[begin..end];
    } else if i < begin {
      assert t[i] == t[..begin][i];
    } else {
      assert t[i] == t[end..][i - end];
    }
  }

  lemma ShuffleKeepsOrder(s: seq<int>, t: seq<int>, begin: nat, end: nat, n: nat, deaths: nat)
    requires ShuffledWithin(s, t, begin, end) && IsPermutation(s, n) && DeathsFirst(s, deaths)
    requires end <= deaths || deaths <= begin
    ensures IsPermutation(t, n) && DeathsFirst(t, deaths)
  {
    ShuffleKeepsPermutation(s, t, begin, end, n);
    forall i | 0 <= i < |t|
      ensures t[i] < deaths <==> i < deaths
    {
      ShuffleKeepsMembers(s, t, begin, end, i);
    }
  }

  /** The names that are, or are not, death test cases, in order. */
  ghost function Select(filter: string, names: seq<string>, deaths: bool): seq<string> {
    if names == [] then []
    else
      Select(filter, names[..|names| - 1], deaths)
      + if IsDeath(filter, names[|names| - 1]) == deaths then [names[|names| - 1]] else []
  }

  lemma SelectAppend(filter: string, names: seq<string>, name: string, deaths: bool)
    ensures Select(filter, names + [name], deaths)
            == Select(filter, names, deaths) + if IsDeath(filter, name) == deaths then [name] else []
  {
    assert (names + [name])[..|names|] == names;
  }

  lemma {:induction false} SelectMembers(filter: string, names: seq<string>, deaths: bool)
    ensures forall name :: name in Select(filter, names, deaths) <==> name in names && IsDeath(filter, name) == deaths
  {
    if names != [] {
      SelectMembers(filter, names[..|names| - 1], deaths);
      assert names == names[..|names| - 1] + [names[|names| - 1]];
    }
  }

  /** A new death test case goes in behind the others. */
  lemma DeathGoesBehindDeaths(filter: string, registered: seq<string>, name: string, testCases: seq<string>, deaths: nat)
    requires deaths == |Select(filter, registered, true)| && IsDeath(filter, name)
    requires testCases == Select(filter, registered, true) + Select(filter, registered, false)
    ensures testCases[..deaths] + [name] + testCases[deaths..]
            == Select(filter, registered + [name], true) + Select(filter, registered + [name], false)
    ensures |Select(filter, registered + [name], true)| == deaths + 1
  {
    SelectAppend(filter, registered, name, true);
    SelectAppend(filter, registered, name, false);
    assert Select(filter, registered, false) + [] == Select(filter, registered, false);
  }

  /** Any other goes to the end. */
  lemma OtherGoesLast(filter: string, registered: seq<string>, name: string, testCases: seq<string>, deaths: nat)
    requires deaths == |Select(filter, registered, true)| && !IsDeath(filter, name)
    requires testCases == Select(filter, registered, true) + Select(filter, registered, false)
    ensures testCases + [name]
            == Select(filter, registered + [name], true) + Select(filter, registered + [name], false)
    ensures |Select(filter, registered + [name], true)| == deaths
  {
    SelectAppend(filter, registered, name, true);
    SelectAppend(filter, registered, name, false);
    assert Select(filter, registered, true) + [] == Select(filter, registered, true);
  }

  lemma ListedAreRegistered(filter: string, registered: seq<string>, name: string)
    ensures name in Select(filter, registered, true) + Select(filter, registered, false) <==> name in registered
  {
    SelectMembers(filter, registered, true);
    SelectMembers(filter, registered, false);
  }

  /** The registered names as they are listed: death test cases, then the others. */
  ghost predicate Listed(filter: string, registered: seq<string>, testCases: seq<string>, deaths: int) {
    && deaths == |Select(filter, registered, true)|
    && testCases == Select(filter, registered, true) + Select(filter, registered, false)
  }

  // ----- Runs of registrations, shuffles and unshuffles -----

  /** The distinct names in order of registration; the names as listed, the
      death test cases in front; the order of the test cases; and the order of
      the tests inside each listed test case. */
  datatype Suite = Suite(registered: seq<string>, testCases: seq<string>, deaths: nat,
                         indices: seq<int>, tests: seq<seq<int>>)

  const EMPTY_SUITE := Suite([], [], 0, [], [])

  function InsertAt<E>(s: seq<E>, i: nat, e: E): seq<E>
    requires i <= |s|
  {
    s[..i] + [e] + s[i..]
  }

  ghost function Register(filter: string, s: Suite, name: string): Suite
    requires s.deaths <= |s.testCases| == |s.tests|
  {
    if name in s.testCases then s
    else
      var indices := s.indices + [|s.indices|];
      if IsDeath(filter, name) then
        Suite(s.registered + [name], InsertAt(s.testCases, s.deaths, name), s.deaths + 1, indices,
              InsertAt(s.tests, s.deaths, []))
      else
        Suite(s.registered + [name], s.testCases + [name], s.deaths, indices, s.tests + [[]])
  }

  function AddTest(s: Suite, k: nat): Suite
    requires k < |s.tests|
  {
    s.(tests := s.tests[k := s.tests[k] + [|s.tests[k]|]])
  }

  /** What the generator chooses in one shuffle of everything. */
  datatype Choices = Choices(deaths: seq<nat>, others: seq<nat>, inner: seq<seq<nat>>)

  predicate ValidFor(s: Suite, c: Choices) {
    && s.deaths <= |s.indices|
    && ValidChoices(s.deaths, c.deaths) && ValidChoices(|s.indices| - s.deaths, c.others)
    && |c.inner| == |s.tests| && forall i :: 0 <= i < |s.tests| ==> ValidChoices(|s.tests[i]|, c.inner[i])
  }

  /** What the generator chooses for one test case after the other, and its state after them. */
  function InnerDraws(tests: seq<seq<int>>, state: nat): seq<seq<nat>> {
    if tests == [] then []
    else [Draws(state, |tests[0]|)] + InnerDraws(tests[1..], AfterDraws(state, |tests[0]|))
  }

  function AfterInner(tests: seq<seq<int>>, state: nat): nat {
    if tests == [] then state else AfterInner(tests[1..], AfterDraws(state, |tests[0]|))
  }

  function AfterCases(s: Suite, state: nat): nat
    requires s.deaths <= |s.indices|
  {
    AfterDraws(AfterDraws(state, s.deaths), |s.indices| - s.deaths)
  }

  /** The death test cases, the others, then the tests inside each test case in the order of the list. */
  function DrawnChoices(s: Suite, state: nat): Choices
    requires s.deaths <= |s.indices|
  {
    Choices(Draws(state, s.deaths), Draws(AfterDraws(state, s.deaths), |s.indices| - s.deaths),
            InnerDraws(s.tests, AfterCases(s, state)))
  }

  lemma {:induction false} InnerDrawsAreValid(tests: seq<seq<int>>, state: nat)
    ensures |InnerDraws(tests, state)| == |tests|
    ensures forall k :: 0 <= k < |tests| ==> ValidChoices(|tests[k]|, InnerDraws(tests, state)[k])
  {
    if tests != [] {
      InnerDrawsAreValid(tests[1..], AfterDraws(state, |tests[0]|));
      forall k | 0 < k < |tests|
        ensures ValidChoices(|tests[k]|, InnerDraws(tests, state)[k])
      {
        assert tests[k] == tests[1..][k - 1];
      }
    }
  }

  /** One more test case's draws come behind those of the cases before it. */
  lemma {:induction false} InnerDrawsAppend(tests: seq<seq<int>>, last: seq<int>, state: nat)
    ensures InnerDraws(tests + [last], state) == InnerDraws(tests, state) + [Draws(AfterInner(tests, state), |last|)]
    ensures AfterInner(tests + [last], state) == AfterDraws(AfterInner(tests, state), |last|)
  {
    var all := tests + [last];
    if tests == [] {
      assert all == [last] && all[1..] == [];
    } else {
      var rest, next := tests[1..], AfterDraws(state, |tests[0]|);
      InnerDrawsAppend(rest, last, next);
      assert all[0] == tests[0] && all[1..] == rest + [last];
      assert InnerDraws(all, state) == [Draws(state, |tests[0]|)] + InnerDraws(rest + [last], next);
    }
  }

  /** The draws of the i-th test case among all. */
  lemma DrawsOfCase(tests: seq<seq<int>>, state: nat, i: nat)
    requires i < |tests|
    ensures |InnerDraws(tests, state)| == |tests|
    ensures InnerDraws(tests, state)[i] == Draws(AfterInner(tests[..i], state), |tests[i]|)
    ensures AfterInner(tests[..i + 1], state) == AfterDraws(AfterInner(tests[..i], state), |tests[i]|)
    ensures InnerDraws(tests[..i + 1], state) == InnerDraws(tests, state)[..i + 1]
  {
    InnerDrawsAreValid(tests, state);
    InnerDrawsPrefix(tests, state, i + 1);
    InnerDrawsAreValid(tests[..i + 1], state);
    InnerDrawsAreValid(tests[..i], state);
    assert tests[..i + 1] == tests[..i] + [tests[i]];
    InnerDrawsAppend(tests[..i], tests[i], state);
  }

  lemma {:induction false} InnerDrawsPrefix(tests: seq<seq<int>>, state: nat, n: nat)
    requires n <= |tests| == |InnerDraws(tests, state)|
    ensures InnerDraws(tests[..n], state) == InnerDraws(tests, state)[..n]
  {
    if n > 0 {
      InnerDrawsAreValid(tests[1..], AfterDraws(state, |tests[0]|));
      InnerDrawsPrefix(tests[1..], AfterDraws(state, |tests[0]|), n - 1);
      assert tests[..n][1..] == tests[1..][..n - 1];
    }
  }

  lemma DrawnAreValid(s: Suite, state: nat)
    requires s.deaths <= |s.indices|
    ensures ValidFor(s, DrawnChoices(s, state))
  {
    InnerDrawsAreValid(s.tests, AfterCases(s, state));
  }

  /** The parts of the index vector one after the other, then every test case's tests. */
  function ShuffledIndices(s: Suite, c: Choices): (t: seq<int>)
    requires ValidFor(s, c)
    ensures |t| == |s.indices|
  {
    FisherYates(FisherYates(s.indices, 0, s.deaths, c.deaths), s.deaths, |s.indices| - s.deaths, c.others)
  }

  function Shuffle(s: Suite, c: Choices): Suite
    requires ValidFor(s, c)
  {
    s.(indices := ShuffledIndices(s, c),
       tests := seq(|s.tests|, i requires 0 <= i < |s.tests| => FisherYates(s.tests[i], 0, |s.tests[i]|, c.inner[i])))
  }

  lemma ShuffledSuite(s: Suite, c: Choices, t: Suite)
    requires ValidFor(s, c) && t.indices == ShuffledIndices(s, c)
    requires t.registered == s.registered && t.testCases == s.testCases && t.deaths == s.deaths && |t.tests| == |s.tests|
    requires forall j :: 0 <= j < |t.tests| ==> t.tests[j] == FisherYates(s.tests[j], 0, |s.tests[j]|, c.inner[j])
    ensures t == Shuffle(s, c)
  {
  }

  function Unshuffle(s: Suite): Suite {
    s.(indices := Identity(|s.indices|),
       tests := seq(|s.tests|, i requires 0 <= i < |s.tests| => Identity(|s.tests[i]|)))
  }

  /** What the methods keep: the list, and both levels of indices permutations. */
  ghost predicate WellListed(filter: string, s: Suite) {
    && Listed(filter, s.registered, s.testCases, s.deaths)
    && |s.tests| == |s.testCases|
    && IsPermutation(s.indices, |s.testCases|)
    && AllPermutations(s.tests)
  }

  ghost predicate InOrder(filter: string, s: Suite) {
    WellListed(filter, s) && DeathsFirst(s.indices, s.deaths)
  }

  lemma InsertAtEnd<E>(s: seq<E>, e: E)
    ensures InsertAt(s, |s|, e) == s + [e]
  {
  }

  ghost predicate AllPermutations(tests: seq<seq<int>>) {
    forall k :: 0 <= k < |tests| ==> IsPermutation(tests[k], |tests[k]|)
  }

  lemma NewCaseKeepsPermutations(tests: seq<seq<int>>, i: nat)
    requires i <= |tests| && AllPermutations(tests)
    ensures AllPermutations(InsertAt(tests, i, []))
  {
    assert IsPermutation([], 0) by { assert Identity(0) == []; }
    var more := InsertAt(tests, i, []);
    forall k | 0 <= k < |more|
      ensures IsPermutation(more[k], |more[k]|)
    {
      if k < i {
        assert more[k] == tests[k];
      } else if k > i {
        assert more[k] == tests[k - 1];
      }
    }
  }

  /** Where a new name goes in the list. */
  ghost function Place(filter: string, s: Suite, name: string): nat {
    if IsDeath(filter, name) then s.deaths else |s.testCases|
  }

  /** Either way a registration is an insertion. */
  lemma RegisterInserts(filter: string, s: Suite, name: string)
    requires s.deaths <= |s.testCases| == |s.tests| && name !in s.testCases
    ensures Register(filter, s, name)
            == Suite(s.registered + [name], InsertAt(s.testCases, Place(filter, s, name), name),
                     s.deaths + (if IsDeath(filter, name) then 1 else 0), s.indices + [|s.indices|],
                     InsertAt(s.tests, Place(filter, s, name), []))
  {
    InsertAtEnd(s.testCases, name);
    InsertAtEnd(s.tests, []);
  }

  lemma RegisterKeepsNames(filter: string, s: Suite, name: string)
    requires Listed(filter, s.registered, s.testCases, s.deaths) && |s.testCases| == |s.tests|
    ensures var s' := Register(filter, s, name);
            Listed(filter, s'.registered, s'.testCases, s'.deaths) && |s'.testCases| == |s'.tests|
  {
    if name !in s.testCases {
      if IsDeath(filter, name) {
        DeathGoesBehindDeaths(filter, s.registered, name, s.testCases, s.deaths);
      } else {
        OtherGoesLast(filter, s.registered, name, s.testCases, s.deaths);
      }
    }
  }

  lemma RegisterKeepsListed(filter: string, s: Suite, name: string)
    requires WellListed(filter, s)
    ensures WellListed(filter, Register(filter, s, name))
  {
    RegisterKeepsNames(filter, s, name);
    if name !in s.testCases {
      RegisterInserts(filter, s, name);
      PermutationSize(s.indices, |s.testCases|);
      PermutationGrows(s.indices, |s.testCases|);
      NewCaseKeepsPermutations(s.tests, Place(filter, s, name));
    }
  }

  /** While nothing is shuffled a registration leaves the indices the identity, and so in order. */
  lemma RegisterUnshuffled(filter: string, s: Suite, name: string)
    requires WellListed(filter, s) && s.indices == Identity(|s.testCases|)
    ensures var s' := Register(filter, s, name);
            && s'.indices == Identity(|s'.testCases|) && InOrder(filter, s')
  {
    RegisterKeepsListed(filter, s, name);
    assert Identity(|s.testCases| + 1) == Identity(|s.testCases|) + [|s.testCases|];
  }

  /** What a registration keeps, shuffled or not. */
  lemma RegisterKeepsOrder(filter: string, s: Suite, name: string)
    requires WellListed(filter, s)
    ensures var s' := Register(filter, s, name);
            && WellListed(filter, s')
            && (s.indices == Identity(|s.testCases|) ==> s'.indices == Identity(|s'.testCases|) && InOrder(filter, s'))
  {
    RegisterKeepsListed(filter, s, name);
    if s.indices == Identity(|s.testCases|) {
      RegisterUnshuffled(filter, s, name);
    }
  }

  lemma AddTestKeepsListed(filter: string, s: Suite, k: nat)
    requires WellListed(filter, s) && k < |s.tests|
    ensures WellListed(filter, AddTest(s, k))
  {
    PermutationGrows(s.tests[k], |s.tests[k]|);
  }

  lemma ShuffleKeepsOrdered(filter: string, s: Suite, c: Choices)
    requires InOrder(filter, s) && ValidFor(s, c)
    ensures InOrder(filter, Shuffle(s, c))
  {
    PermutationSize(s.indices, |s.testCases|);
    IndicesKeepOrder(s, c, |s.testCases|);
    forall k | 0 <= k < |s.tests|
      ensures IsPermutation(Shuffle(s, c).tests[k], |Shuffle(s, c).tests[k]|)
    {
      FisherYatesShuffles(s.tests[k], 0, |s.tests[k]|, c.inner[k]);
      ShuffleKeepsPermutation(s.tests[k], Shuffle(s, c).tests[k], 0, |s.tests[k]|, |s.tests[k]|);
    }
  }

  lemma PartKeepsOrder(indices: seq<int>, begin: nat, width: nat, choices: seq<nat>, n: nat, deaths: nat)
    requires IsPermutation(indices, n) && DeathsFirst(indices, deaths)
    requires begin + width <= |indices| && ValidChoices(width, choices) && (begin + width <= deaths || deaths <= begin)
    ensures var t := FisherYates(indices, begin, width, choices); IsPermutation(t, n) && DeathsFirst(t, deaths)
  {
    FisherYatesShuffles(indices, begin, width, choices);
    ShuffleKeepsOrder(indices, FisherYates(indices, begin, width, choices), begin, begin + width, n, deaths);
  }

  lemma PartsKeepOrder(indices: seq<int>, first: seq<nat>, second: seq<nat>, n: nat, deaths: nat)
    requires |indices| == n && deaths <= n && IsPermutation(indices, n) && DeathsFirst(indices, deaths)
    requires ValidChoices(deaths, first) && ValidChoices(n - deaths, second)
    ensures var t := FisherYates(FisherYates(indices, 0, deaths, first), deaths, n - deaths, second);
            IsPermutation(t, n) && DeathsFirst(t, deaths)
  {
    PartKeepsOrder(indices, 0, deaths, first, n, deaths);
    PartKeepsOrder(FisherYates(indices, 0, deaths, first), deaths, n - deaths, second, n, deaths);
  }

  lemma IndicesKeepOrder(s: Suite, c: Choices, n: nat)
    requires ValidFor(s, c) && |s.indices| == n && IsPermutation(s.indices, n) && DeathsFirst(s.indices, s.deaths)
    ensures IsPermutation(ShuffledIndices(s, c), n) && DeathsFirst(ShuffledIndices(s, c), s.deaths)
  {
    PartsKeepOrder(s.indices, c.deaths, c.others, n, s.deaths);
  }

  /** The first deaths positions of an order hold just the indices below deaths. */
  lemma DeathsAreInFront(indices: seq<int>, n: nat, deaths: nat)
    requires IsPermutation(indices, n) && DeathsFirst(indices, deaths) && deaths <= n
    ensures |indices| == n && multiset(indices[..deaths]) == multiset(Identity(deaths))
  {
    PermutationSize(indices, n);
    var front, behind := indices[..deaths], indices[deaths..];
    assert indices == front + behind;
    forall x
      ensures multiset(front)[x] == multiset(Identity(deaths))[x]
    {
      IdentityCounts(deaths, x);
      IdentityCounts(n, x);
      assert multiset(indices)[x] == multiset(front)[x] + multiset(behind)[x];
      if x in front {
        assert x in multiset(indices) && x in indices;
        var i :| 0 <= i < deaths && front[i] == x;
        assert indices[i] == x;
      }
      if x in behind {
        var i :| 0 <= i < n - deaths && behind[i] == x;
        assert indices[deaths + i] == x;
      }
    }
  }

  lemma SameWithin(s: seq<int>, t: seq<int>, n: nat, deaths: nat)
    requires IsPermutation(s, n) && DeathsFirst(s, deaths) && IsPermutation(t, n) && DeathsFirst(t, deaths) && deaths <= n
    ensures |s| == |t| == n
    ensures multiset(s[..deaths]) == multiset(t[..deaths]) && multiset(s[deaths..]) == multiset(t[deaths..])
  {
    DeathsAreInFront(s, n, deaths);
    DeathsAreInFront(t, n, deaths);
    assert s == s[..deaths] + s[deaths..] && t == t[..deaths] + t[deaths..];
    assert multiset(s[deaths..]) == multiset(s) - multiset(s[..deaths]);
    assert multiset(t[deaths..]) == multiset(t) - multiset(t[..deaths]);
  }

  lemma OrdersAreReached(s: seq<int>, t: seq<int>, n: nat, deaths: nat) returns (first: seq<nat>, second: seq<nat>)
    requires IsPermutation(s, n) && DeathsFirst(s, deaths) && IsPermutation(t, n) && DeathsFirst(t, deaths) && deaths <= n
    ensures |s| == n && ValidChoices(deaths, first) && ValidChoices(n - deaths, second)
    ensures FisherYates(FisherYates(s, 0, deaths, first), deaths, n - deaths, second) == t
  {
    SameWithin(s, t, n, deaths);
    var between := t[..deaths] + s[deaths..];
    assert s[0..deaths] == s[..deaths] && between[0..deaths] == t[..deaths];
    assert between[deaths..] == s[deaths..] && between[..deaths] == t[..deaths];
    assert between[deaths..n] == s[deaths..] && t[deaths..n] == t[deaths..];
    first := FisherYatesReachesAll(s, between, 0, deaths);
    second := FisherYatesReachesAll(between, t, deaths, n - deaths);
  }

  lemma {:induction false} InnerOrdersAreReached(tests: seq<seq<int>>, goal: seq<seq<int>>) returns (inner: seq<seq<nat>>)
    requires AllPermutations(tests) && AllPermutations(goal) && |tests| == |goal|
    requires forall k :: 0 <= k < |tests| ==> |tests[k]| == |goal[k]|
    ensures |inner| == |tests|
    ensures forall k :: 0 <= k < |tests| ==>
                          && ValidChoices(|tests[k]|, inner[k])
                          && FisherYates(tests[k], 0, |tests[k]|, inner[k]) == goal[k]
  {
    if tests == [] {
      inner := [];
    } else {
      var n := |tests| - 1;
      var before := InnerOrdersAreReached(tests[..n], goal[..n]);
      var s, g := tests[n], goal[n];
      assert s[0..|s|] == s && g[0..|g|] == g;
      var last := FisherYatesReachesAll(s, g, 0, |s|);
      inner := before + [last];
      forall k | 0 <= k < n
        ensures ValidChoices(|tests[k]|, inner[k]) && FisherYates(tests[k], 0, |tests[k]|, inner[k]) == goal[k]
      {
        assert tests[..n][k] == tests[k] && goal[..n][k] == goal[k];
      }
    }
  }

  /** Every arrangement of the same suite with death test cases first, and of the
      tests inside each test case, is what some choices make of it. */
  lemma EveryArrangementIsAShuffle(filter: string, s: Suite, t: Suite) returns (c: Choices)
    requires InOrder(filter, s) && InOrder(filter, t) && t.registered == s.registered
    requires |t.tests| == |s.tests| && forall k :: 0 <= k < |s.tests| ==> |t.tests[k]| == |s.tests[k]|
    ensures ValidFor(s, c) && Shuffle(s, c) == t
  {
    var n := |s.testCases|;
    var first, second := OrdersAreReached(s.indices, t.indices, n, s.deaths);
    var inner := InnerOrdersAreReached(s.tests, t.tests);
    c := Choices(first, second, inner);
    assert |s.indices| == n && ShuffledIndices(s, c) == t.indices;
    ShuffledSuite(s, c, t);
  }

  lemma UnshuffleRestores(filter: string, s: Suite)
    requires WellListed(filter, s)
    ensures InOrder(filter, Unshuffle(s)) && IsUnshuffled(Unshuffle(s))
    ensures Unshuffle(s).testCases == s.testCases
  {
    PermutationSize(s.indices, |s.testCases|);
  }

  predicate IsUnshuffled(s: Suite) {
    && s.indices == Identity(|s.indices|)
    && forall k :: 0 <= k < |s.tests| ==> s.tests[k] == Identity(|s.tests[k]|)
  }

  datatype Event =
    | CaseRegistered(name: string)
    | TestAdded(testCase: nat)
    | Shuffled(choices: Choices)
    | Unshuffled

  /** Registering is the caller's right only while nothing is shuffled. */
  predicate Enabled(s: Suite, e: Event) {
    match e
    case CaseRegistered(_) => s.deaths <= |s.testCases| == |s.tests| && IsUnshuffled(s)
    case TestAdded(k) => k < |s.tests| && IsUnshuffled(s)
    case Shuffled(c) => ValidFor(s, c)
    case Unshuffled => true
  }

  ghost function Step(filter: string, s: Suite, e: Event): Suite
    requires Enabled(s, e)
  {
    match e
    case CaseRegistered(name) => Register(filter, s, name)
    case TestAdded(k) => AddTest(s, k)
    case Shuffled(c) => Shuffle(s, c)
    case Unshuffled => Unshuffle(s)
  }

  ghost predicate Reaches(filter: string, s: Suite, events: seq<Event>, s': Suite)
    decreases |events|
  {
    if events == [] then s' == s
    else Enabled(s, events[0]) && Reaches(filter, Step(filter, s, events[0]), events[1..], s')
  }

  lemma StepKeepsOrder(filter: string, s: Suite, e: Event)
    requires InOrder(filter, s) && Enabled(s, e)
    ensures InOrder(filter, Step(filter, s, e))
  {
    match e
    case CaseRegistered(name) =>
      PermutationSize(s.indices, |s.testCases|);
      RegisterUnshuffled(filter, s, name);
    case TestAdded(k) => AddTestKeepsListed(filter, s, k);
    case Shuffled(c) => ShuffleKeepsOrdered(filter, s, c);
    case Unshuffled => UnshuffleRestores(filter, s);
  }

  lemma {:induction false} RunsKeepOrder(filter: string, s: Suite, events: seq<Event>, s': Suite)
    requires InOrder(filter, s) && Reaches(filter, s, events, s')
    ensures InOrder(filter, s')
    decreases |events|
  {
    if events != [] {
      StepKeepsOrder(filter, s, events[0]);
      RunsKeepOrder(filter, Step(filter, s, events[0]), events[1..], s');
    }
  }

  lemma EmptyIsInOrder(filter: string)
    ensures InOrder(filter, EMPTY_SUITE)
  {
    assert Identity(0) == [];
  }

  // ----- What is registered -----

  function NamesRegistered(events: seq<Event>): seq<string> {
    if events == [] then []
    else (if events[0].CaseRegistered? then [events[0].name] else []) + NamesRegistered(events[1..])
  }

  predicate Distinct(names: seq<string>) {
    forall i, j :: 0 <= i < j < |names| ==> names[i] != names[j]
  }

  /** The names registered so far, and of further ones each where it first occurs. */
  function WithNew(registered: seq<string>, names: seq<string>): (all: seq<string>)
    ensures registered <= all
    decreases |names|
  {
    if names == [] then registered else WithNew(WithOne(registered, names[0]), names[1..])
  }

  function WithOne(registered: seq<string>, name: string): (all: seq<string>)
    ensures registered <= all
  {
    if name in registered then registered else registered + [name]
  }

  lemma WithOneName(registered: seq<string>, name: string)
    requires Distinct(registered)
    ensures Distinct(WithOne(registered, name))
    ensures forall x :: x in WithOne(registered, name) <==> x in registered || x == name
  {
  }

  lemma {:induction false} WithNewNames(registered: seq<string>, names: seq<string>)
    requires Distinct(registered)
    ensures Distinct(WithNew(registered, names))
    ensures forall name :: name in WithNew(registered, names) <==> name in registered || name in names
    decreases |names|
  {
    if names != [] {
      WithOneName(registered, names[0]);
      WithNewNames(WithOne(registered, names[0]), names[1..]);
      assert forall x :: x in names <==> x == names[0] || x in names[1..];
    }
  }

  lemma RegisterAddsName(filter: string, s: Suite, e: Event)
    requires InOrder(filter, s) && Enabled(s, e)
    ensures Step(filter, s, e).registered
            == if e.CaseRegistered? && e.name !in s.registered then s.registered + [e.name] else s.registered
  {
    if e.CaseRegistered? {
      ListedAreRegistered(filter, s.registered, e.name);
    }
  }

  /** A run registers each of its names once, where it first occurs. */
  lemma {:induction false} RunsRegister(filter: string, s: Suite, events: seq<Event>, s': Suite)
    requires InOrder(filter, s) && Reaches(filter, s, events, s')
    ensures s'.registered == WithNew(s.registered, NamesRegistered(events))
    decreases |events|
  {
    if events != [] {
      RegisterAddsName(filter, s, events[0]);
      StepKeepsOrder(filter, s, events[0]);
      RunsRegister(filter, Step(filter, s, events[0]), events[1..], s');
      if events[0].CaseRegistered? {
        assert NamesRegistered(events)[1..] == NamesRegistered(events[1..]);
      } else {
        assert NamesRegistered(events) == NamesRegistered(events[1..]);
      }
    }
  }

  /** Until the first shuffle everything stays in registration order. */
  lemma {:induction false} RunsUnshuffled(filter: string, s: Suite, events: seq<Event>, s': Suite)
    requires InOrder(filter, s) && IsUnshuffled(s) && Reaches(filter, s, events, s')
    requires forall e :: e in events ==> !e.Shuffled?
    ensures IsUnshuffled(s')
    decreases |events|
  {
    if events != [] {
      assert events[0] in events;
      StepKeepsOrder(filter, s, events[0]);
      StepStaysUnshuffled(filter, s, events[0]);
      RunsUnshuffled(filter, Step(filter, s, events[0]), events[1..], s');
    }
  }

  lemma StepStaysUnshuffled(filter: string, s: Suite, e: Event)
    requires InOrder(filter, s) && IsUnshuffled(s) && Enabled(s, e) && !e.Shuffled?
    ensures IsUnshuffled(Step(filter, s, e))
  {
    PermutationSize(s.indices, |s.testCases|);
    match e
    case CaseRegistered(name) =>
      RegisterUnshuffled(filter, s, name);
      if name !in s.testCases {
        NewCaseIsUnshuffled(s.tests, Place(filter, s, name));
        RegisterInserts(filter, s, name);
      }
    case TestAdded(k) =>
      var n := |s.tests[k]|;
      assert Identity(n + 1) == Identity(n) + [n];
    case Unshuffled => UnshuffleRestores(filter, s);
  }

  lemma NewCaseIsUnshuffled(tests: seq<seq<int>>, i: nat)
    requires forall k :: 0 <= k < |tests| ==> tests[k] == Identity(|tests[k]|)
    requires i <= |tests|
    ensures var more := InsertAt(tests, i, []); forall k :: 0 <= k < |more| ==> more[k] == Identity(|more[k]|)
  {
  }

  /** In every run each test case is registered once and listed once, however
      often its name is asked for; and so long as nothing has been shuffled, it
      and its tests are where registration put them. */
  lemma EveryNameIsRegisteredOnce(filter: string, events: seq<Event>, s: Suite)
    requires Reaches(filter, EMPTY_SUITE, events, s)
    ensures Distinct(s.registered) && Distinct(s.testCases)
    ensures forall name :: name in s.registered <==> name in NamesRegistered(events)
    ensures forall name :: name in s.testCases <==> name in NamesRegistered(events)
    ensures s.registered == WithNew([], NamesRegistered(events))
    ensures (forall e :: e in events ==> !e.Shuffled?) ==> IsUnshuffled(s)
  {
    EmptyIsInOrder(filter);
    RunsKeepOrder(filter, EMPTY_SUITE, events, s);
    RunsRegister(filter, EMPTY_SUITE, events, s);
    WithNewNames([], NamesRegistered(events));
    ListedDistinct(filter, s.registered);
    forall name
      ensures name in s.testCases <==> name in s.registered
    {
      ListedAreRegistered(filter, s.registered, name);
    }
    if forall e :: e in events ==> !e.Shuffled? {
      RunsUnshuffled(filter, EMPTY_SUITE, events, s);
    }
  }

  lemma {:induction false} SelectDistinct(filter: string, names: seq<string>, deaths: bool)
    requires Distinct(names)
    ensures Distinct(Select(filter, names, deaths))
  {
    if names != [] {
      SelectDistinct(filter, names[..|names| - 1], deaths);
      SelectMembers(filter, names[..|names| - 1], deaths);
      assert names[|names| - 1] !in names[..|names| - 1];
    }
  }

  lemma ListedDistinct(filter: string, registered: seq<string>)
    requires Distinct(registered)
    ensures Distinct(Select(filter, registered, true) + Select(filter, registered, false))
  {
    SelectDistinct(filter, registered, true);
    SelectDistinct(filter, registered, false);
    SelectMembers(filter, registered, true);
    SelectMembers(filter, registered, false);
    var a, b := Select(filter, registered, true), Select(filter, registered, false);
    forall i, j | 0 <= i < j < |a + b|
      ensures (a + b)[i] != (a + b)[j]
    {
      if i < |a| <= j {
        assert (a + b)[i] in a && (a + b)[j] in b;
      }
    }
  }

  // ----- The order they run in -----

  /** The test cases in the order they run. */
  function ExecutionOrder(testCases: seq<string>, indices: seq<int>): seq<string>
    requires forall i :: 0 <= i < |indices| ==> 0 <= indices[i] < |testCases|
  {
    seq(|indices|, i requires 0 <= i < |indices| => testCases[indices[i]])
  }

  /** Unshuffled, the test cases run as they are listed. */
  lemma UnshuffledRunsAsListed(testCases: seq<string>)
    ensures ExecutionOrder(testCases, Identity(|testCases|)) == testCases
  {
  }

  /** Which part a listed name belongs to shows from its index. */
  lemma PartOfIndex(filter: string, registered: seq<string>, testCases: seq<string>, deaths: nat, k: nat)
    requires Listed(filter, registered, testCases, deaths) && k < |testCases|
    ensures IsDeath(filter, testCases[k]) <==> k < deaths
  {
    SelectMembers(filter, registered, true);
    SelectMembers(filter, registered, false);
    if k < deaths {
      assert testCases[k] == Select(filter, registered, true)[k];
      assert testCases[k] in Select(filter, registered, true);
    } else {
      assert testCases[k] == Select(filter, registered, false)[k - deaths];
      assert testCases[k] in Select(filter, registered, false);
    }
  }

  /** In every state the methods keep, every death test case runs before every
      other one, and each test case runs exactly once. */
  lemma DeathTestsRunFirst(filter: string, registered: seq<string>, testCases: seq<string>, deaths: nat, indices: seq<int>)
    requires Listed(filter, registered, testCases, deaths)
    requires IsPermutation(indices, |testCases|) && DeathsFirst(indices, deaths)
    ensures |indices| == |testCases| && forall i :: 0 <= i < |indices| ==> 0 <= indices[i] < |testCases|
    ensures forall i, j :: 0 <= i < j < |indices| ==> indices[i] != indices[j]
    ensures var order := ExecutionOrder(testCases, indices);
            forall i, j :: 0 <= i < j < |order| && IsDeath(filter, order[j]) ==> IsDeath(filter, order[i])
  {
    PermutationSize(indices, |testCases|);
    PermutationDistinct(indices, |testCases|);
    var order := ExecutionOrder(testCases, indices);
    forall i | 0 <= i < |order|
      ensures IsDeath(filter, order[i]) <==> i < deaths
    {
      PartOfIndex(filter, registered, testCases, deaths, indices[i]);
    }
  }

  /** After any registrations followed by any shuffles and unshuffles, and
      registrations again wherever nothing is shuffled: the indices are a
      permutation at both levels, every death test case runs before every other,
      and each test case runs exactly once. */
  lemma EveryRunPutsDeathTestsFirst(filter: string, events: seq<Event>, s: Suite)
    requires Reaches(filter, EMPTY_SUITE, events, s)
    ensures IsPermutation(s.indices, |s.testCases|) && |s.tests| == |s.testCases|
    ensures forall k :: 0 <= k < |s.tests| ==> IsPermutation(s.tests[k], |s.tests[k]|)
    ensures |s.indices| == |s.testCases| && forall i :: 0 <= i < |s.indices| ==> 0 <= s.indices[i] < |s.testCases|
    ensures forall i, j :: 0 <= i < j < |s.indices| ==> s.indices[i] != s.indices[j]
    ensures var order := ExecutionOrder(s.testCases, s.indices);
            forall i, j :: 0 <= i < j < |order| && IsDeath(filter, order[j]) ==> IsDeath(filter, order[i])
  {
    EmptyIsInOrder(filter);
    RunsKeepOrder(filter, EMPTY_SUITE, events, s);
    DeathTestsRunFirst(filter, s.registered, s.testCases, s.deaths, s.indices);
  }

  /** After any run an unshuffle makes the test cases run in registration order,
      the death test cases first, and the tests inside each in theirs. */
  lemma UnshufflingRestoresRegistrationOrder(filter: string, events: seq<Event>, s: Suite)
    requires Reaches(filter, EMPTY_SUITE, events, s)
    ensures var s' := Unshuffle(s);
            && s'.registered == s.registered && IsUnshuffled(s') && |s'.indices| == |s'.testCases|
            && ExecutionOrder(s'.testCases, s'.indices)
               == Select(filter, s.registered, true) + Select(filter, s.registered, false)
  {
    EmptyIsInOrder(filter);
    RunsKeepOrder(filter, EMPTY_SUITE, events, s);
    UnshuffleRestores(filter, s);
    PermutationSize(s.indices, |s.testCases|);
    UnshuffledRunsAsListed(s.testCases);
  }

  // ----- The classes -----

  class TestCase {
    const name: string
    const testIndices: Vector<int>

    constructor (testCaseName: string)
      ensures name == testCaseName && fresh(testIndices) && testIndices.elements == []
    {
      name := testCaseName;
      testIndices := new Vector<int>();
    }

    method AddTestInfo()
      modifies testIndices
      ensures testIndices.elements == old(testIndices.elements) + [|old(testIndices.elements)|]
    {
      testIndices.elements := testIndices.elements + [|testIndices.elements|];
    }

    method ShuffleTests(random: Random)
      requires |testIndices.elements| < MAX_RANGE
      modifies random, testIndices
      ensures var old' := old(testIndices.elements);
              && testIndices.elements == FisherYates(old', 0, |old'|, Draws(old(random.state), |old'|))
              && random.state == AfterDraws(old(random.state), |old'|)
    {
      ShuffleRange(random, 0, |testIndices.elements|, testIndices);
    }

    method UnshuffleTests()
      modifies testIndices
      ensures testIndices.elements == Identity(|old(testIndices.elements)|)
    {
      ResetIndices(testIndices);
    }
  }

  /** Sets every index to its position. */
  method ResetIndices(v: Vector<int>)
    modifies v
    ensures v.elements == Identity(|old(v.elements)|)
  {
    for i := 0 to |v.elements|
      invariant |v.elements| == |old(v.elements)|
      invariant forall j :: 0 <= j < i ==> v.elements[j] == j
    {
      v.elements := v.elements[i := i];
    }
    assert v.elements == Identity(|old(v.elements)|);
  }

  ghost function NamesOf(testCases: seq<TestCase>): seq<string> {
    seq(|testCases|, i requires 0 <= i < |testCases| => testCases[i].name)
  }

  ghost function VectorsOf(testCases: seq<TestCase>): set<Vector<int>> {
    set t | t in testCases :: t.testIndices
  }

  ghost function TestsOf(testCases: seq<TestCase>): seq<seq<int>>
    reads VectorsOf(testCases)
  {
    seq(|testCases|, i requires 0 <= i < |testCases| reads VectorsOf(testCases) => testCases[i].testIndices.elements)
  }

  lemma InsertedIsListed(testCases: seq<TestCase>, at: nat, testCase: TestCase)
    requires at <= |testCases|
    ensures var inserted := InsertAt(testCases, at, testCase);
            && testCase in inserted
            && NamesOf(inserted) == InsertAt(NamesOf(testCases), at, testCase.name)
            && TestsOf(inserted) == InsertAt(TestsOf(testCases), at, testCase.testIndices.elements)
  {
    var inserted := InsertAt(testCases, at, testCase);
    assert inserted[at] == testCase;
    forall i | 0 <= i < |inserted|
      ensures inserted[i] == if i < at then testCases[i] else if i == at then testCase else testCases[i - 1]
    {}
  }

  class UnitTestImpl {
    const deathTestCaseFilter: string
    var testCases: seq<TestCase>
    const testCaseIndices: Vector<int>
    var lastDeathTestCase: int
    const random: Random
    ghost var registered: seq<string>     // the distinct names, in order of registration

    ghost function Names(): seq<string>
      reads this`testCases
    {
      NamesOf(testCases)
    }

    ghost function Vectors(): set<Vector<int>>
      reads this`testCases
    {
      VectorsOf(testCases)
    }

    ghost function Tests(): seq<seq<int>>
      reads this`testCases, Vectors()
    {
      TestsOf(testCases)
    }

    ghost function Abstract(): Suite
      requires lastDeathTestCase >= -1
      reads this, testCaseIndices, Vectors()
    {
      Suite(registered, Names(), lastDeathTestCase + 1, testCaseIndices.elements, Tests())
    }

    /** No two vectors of indices are the same object. */
    ghost predicate Separate()
      reads this`testCases
    {
      && testCaseIndices !in Vectors()
      && forall i, j :: 0 <= i < j < |testCases| ==> testCases[i].testIndices != testCases[j].testIndices
    }

    /** Small enough for the source's int. */
    ghost predicate Small()
      reads this`testCases, Vectors()
    {
      |testCases| < MAX_RANGE && forall i :: 0 <= i < |testCases| ==> |testCases[i].testIndices.elements| < MAX_RANGE
    }

    ghost predicate Valid()
      reads this, testCaseIndices, Vectors()
    {
      && NoNul(deathTestCaseFilter) && lastDeathTestCase >= -1
      && Separate() && Small()
      && WellListed(deathTestCaseFilter, Abstract())
    }

    constructor (seed: nat)
      ensures Valid() && Abstract() == EMPTY_SUITE
      ensures deathTestCaseFilter == DEATH_TEST_CASE_FILTER
      ensures fresh(testCaseIndices) && fresh(random)
    {
      deathTestCaseFilter := DEATH_TEST_CASE_FILTER;
      testCases, lastDeathTestCase, registered := [], -1, [];
      testCaseIndices := new Vector<int>();
      random := new Random(seed);
      new;
      EmptyIsInOrder(deathTestCaseFilter);
    }

    /** The first test case of that name, or none. */
    method FindCase(testCaseName: string) returns (at: nat)
      ensures at <= |testCases|
      ensures at < |testCases| ==> testCases[at].name == testCaseName
      ensures at == |testCases| <==> testCaseName !in Names()
    {
      at := 0;
      while at < |testCases| && testCases[at].name != testCaseName
        invariant at <= |testCases|
        invariant forall i :: 0 <= i < at ==> testCases[i].name != testCaseName
      {
        at := at + 1;
      }
      if at < |testCases| {
        assert Names()[at] == testCaseName;
      }
    }

    /** Puts a new test case into the list. */
    method InsertCase(at: nat, testCaseName: string) returns (testCase: TestCase)
      requires Separate() && Small() && at <= |testCases|
      modifies this`testCases
      ensures Separate() && testCases == InsertAt(old(testCases), at, testCase)
      ensures testCase.name == testCaseName && testCase in testCases
      ensures Names() == InsertAt(old(Names()), at, testCaseName)
      ensures Tests() == InsertAt(old(Tests()), at, [])
      ensures forall i :: 0 <= i < |testCases| ==> |testCases[i].testIndices.elements| < MAX_RANGE
    {
      testCase := new TestCase(testCaseName);
      InsertedIsListed(testCases, at, testCase);
      testCases := InsertAt(testCases, at, testCase);
    }

    /** Creates a test case behind the last death test case or at the end. */
    method CreateCase(testCaseName: string, isDeathTest: bool) returns (testCase: TestCase)
      requires Separate() && Small() && |testCases| + 1 < MAX_RANGE && -1 <= lastDeathTestCase < |testCases|
      modifies this`testCases, this`lastDeathTestCase, this`registered, testCaseIndices
      ensures Separate() && Small() && lastDeathTestCase == old(lastDeathTestCase) + if isDeathTest then 1 else 0
      ensures testCase in testCases && testCase.name == testCaseName
      ensures var at := if isDeathTest then old(lastDeathTestCase) + 1 else |old(testCases)|;
              Names() == InsertAt(old(Names()), at, testCaseName) && Tests() == InsertAt(old(Tests()), at, [])
      ensures registered == old(registered) + [testCaseName]
      ensures testCaseIndices.elements == old(testCaseIndices.elements) + [|old(testCaseIndices.elements)|]
    {
      if isDeathTest {
        lastDeathTestCase := lastDeathTestCase + 1;
        testCase := InsertCase(lastDeathTestCase, testCaseName);
      } else {
        testCase := InsertCase(|testCases|, testCaseName);
      }
      AppendIndex(testCaseName);
    }

    /** The new test case runs last, until the next shuffle. */
    method AppendIndex(testCaseName: string)
      requires Separate()
      modifies this`registered, testCaseIndices
      ensures registered == old(registered) + [testCaseName] && Names() == old(Names()) && Tests() == old(Tests())
      ensures testCaseIndices.elements == old(testCaseIndices.elements) + [|old(testCaseIndices.elements)|]
    {
      registered := registered + [testCaseName];
      testCaseIndices.elements := testCaseIndices.elements + [|testCaseIndices.elements|];
    }

    /** Finds the test case, or creates it: behind the last death test case if
        it is one, at the end of the list otherwise. Registering while nothing
        is shuffled keeps everything in order. */
    method GetTestCase(testCaseName: string) returns (testCase: TestCase)
      requires Valid() && NoNul(testCaseName) && |testCases| + 1 < MAX_RANGE
      modifies this`testCases, this`lastDeathTestCase, this`registered, testCaseIndices
      ensures Valid() && testCase in testCases && testCase.name == testCaseName
      ensures Abstract() == Register(deathTestCaseFilter, old(Abstract()), testCaseName)
      ensures old(testCaseIndices.elements) == Identity(|old(testCases)|) ==>
                testCaseIndices.elements == Identity(|testCases|) && InOrder(deathTestCaseFilter, Abstract())
    {
      ghost var before := Abstract();
      RegisterKeepsOrder(deathTestCaseFilter, before, testCaseName);
      var at := FindCase(testCaseName);
      if at < |testCases| {
        testCase := testCases[at];
        assert Names()[at] == testCaseName;
        return;
      }
      RegisterInserts(deathTestCaseFilter, before, testCaseName);
      var isDeathTest := MatchesFilter(testCaseName, deathTestCaseFilter);
      testCase := CreateCase(testCaseName, isDeathTest);
      assert lastDeathTestCase >= -1 && Abstract() == Register(deathTestCaseFilter, before, testCaseName);
    }

    method ShuffleCase(i: nat)
      requires Separate() && i < |testCases| && |testCases[i].testIndices.elements| < MAX_RANGE
      modifies random, testCases[i].testIndices
      ensures var tests := old(Tests());
              && Tests() == tests[i := FisherYates(tests[i], 0, |tests[i]|, Draws(old(random.state), |tests[i]|))]
              && random.state == AfterDraws(old(random.state), |tests[i]|)
    {
      testCases[i].ShuffleTests(random);
    }

    /** Shuffles the tests inside each test case, in the order of the list. */
    method ShuffleInside()
      requires Separate() && Small()
      modifies random, Vectors()
      ensures Small() && |InnerDraws(old(Tests()), old(random.state))| == |testCases|
      ensures random.state == AfterInner(old(Tests()), old(random.state))
      ensures var tests, inner := old(Tests()), InnerDraws(old(Tests()), old(random.state));
              forall j :: 0 <= j < |testCases| ==>
                            && ValidChoices(|tests[j]|, inner[j])
                            && Tests()[j] == FisherYates(tests[j], 0, |tests[j]|, inner[j])
    {
      ghost var tests, start := Tests(), random.state;
      ghost var inner := InnerDraws(tests, start);
      InnerDrawsAreValid(tests, start);
      for i := 0 to |testCases|
        invariant random.state == AfterInner(tests[..i], start) && InnerDraws(tests[..i], start) == inner[..i]
        invariant forall j :: 0 <= j < |testCases| ==>
                                Tests()[j] == if j < i then FisherYates(tests[j], 0, |tests[j]|, inner[j]) else tests[j]
      {
        assert Tests()[i] == tests[i];
        DrawsOfCase(tests, start, i);
        ShuffleCase(i);
      }
      assert tests[..|tests|] == tests;
      forall j | 0 <= j < |testCases|
        ensures |testCases[j].testIndices.elements| < MAX_RANGE
      {
        assert |Tests()[j]| == |tests[j]|;
      }
    }

    /** Shuffles the death test cases, then the others. */
    method ShuffleCases()
      requires Separate() && Small() && -1 <= lastDeathTestCase < |testCases| == |testCaseIndices.elements|
      modifies random, testCaseIndices
      ensures var deaths, n := lastDeathTestCase + 1, |testCases|;
              var indices, start := old(testCaseIndices.elements), old(random.state);
              && testCaseIndices.elements
                 == FisherYates(FisherYates(indices, 0, deaths, Draws(start, deaths)), deaths, n - deaths,
                                Draws(AfterDraws(start, deaths), n - deaths))
              && random.state == AfterDraws(AfterDraws(start, deaths), n - deaths)
    {
      var deaths, n := lastDeathTestCase + 1, |testCases|;
      ShuffleRange(random, 0, deaths, testCaseIndices);
      ShuffleRange(random, deaths, n, testCaseIndices);
    }

    /** Shuffles the death test cases, the others, and the tests inside each. */
    method ShuffleEverything()
      requires Separate() && Small() && -1 <= lastDeathTestCase < |testCases| == |testCaseIndices.elements|
      modifies random, testCaseIndices, Vectors()
      ensures Separate() && Small()
      ensures var s, start := old(Abstract()), old(random.state);
              && ValidFor(s, DrawnChoices(s, start))
              && Abstract() == Shuffle(s, DrawnChoices(s, start))
              && random.state == AfterInner(s.tests, AfterCases(s, start))
    {
      ghost var before, start := Abstract(), random.state;
      ghost var c := DrawnChoices(before, start);
      DrawnAreValid(before, start);
      ShuffleCases();
      ghost var between := Abstract();
      assert between == before.(indices := ShuffledIndices(before, c)) && random.state == AfterCases(before, start);
      ShuffleInside();
      ghost var after := Abstract();
      assert after == between.(tests := after.tests);
      ShuffledSuite(before, c, after);
    }

    /** Shuffles by exactly what the generator draws, and leaves it where that ends. */
    method ShuffleTests()
      requires Valid()
      modifies random, testCaseIndices, Vectors()
      ensures Separate() && Small()
      ensures var s, start := old(Abstract()), old(random.state);
              && s.deaths <= |s.indices| && ValidFor(s, DrawnChoices(s, start))
              && Abstract() == Shuffle(s, DrawnChoices(s, start))
              && random.state == AfterInner(s.tests, AfterCases(s, start))
      ensures old(InOrder(deathTestCaseFilter, Abstract())) ==> Valid() && InOrder(deathTestCaseFilter, Abstract())
    {
      ghost var before, start := Abstract(), random.state;
      PermutationSize(before.indices, |before.testCases|);
      ShuffleEverything();
      if InOrder(deathTestCaseFilter, before) {
        ShuffleKeepsOrdered(deathTestCaseFilter, before, DrawnChoices(before, start));
      }
    }

    /** Sets the index of one test case, and those inside it, to their positions. */
    method ResetCase(i: nat)
      requires Separate() && i < |testCases| == |testCaseIndices.elements|
      modifies testCaseIndices, testCases[i].testIndices
      ensures testCaseIndices.elements == old(testCaseIndices.elements)[i := i]
      ensures Tests() == old(Tests())[i := Identity(|old(Tests())[i]|)]
    {
      testCases[i].UnshuffleTests();
      testCaseIndices.elements := testCaseIndices.elements[i := i];
    }

    /** Sets both levels of indices to their positions. */
    method ResetEverything()
      requires Separate() && Small() && |testCaseIndices.elements| == |testCases| && lastDeathTestCase >= -1
      modifies testCaseIndices, Vectors()
      ensures Separate() && Small() && Abstract() == Unshuffle(old(Abstract()))
    {
      ghost var before := Abstract();
      for i := 0 to |testCases|
        invariant |testCaseIndices.elements| == |testCases|
        invariant forall j :: 0 <= j < i ==> testCaseIndices.elements[j] == j
        invariant forall j :: 0 <= j < |testCases| ==>
                                Tests()[j] == if j < i then Identity(|before.tests[j]|) else before.tests[j]
      {
        ResetCase(i);
      }
      forall j | 0 <= j < |testCases|
        ensures |testCases[j].testIndices.elements| < MAX_RANGE
      {
        assert Tests()[j] == Identity(|before.tests[j]|);
      }
      assert Tests() == Unshuffle(before).tests;
      assert testCaseIndices.elements == Identity(|before.indices|);
    }

    /** Restores both levels to registration order, whatever the shuffles did. */
    method UnshuffleTests()
      requires Valid()
      modifies testCaseIndices, Vectors()
      ensures Valid() && Abstract() == Unshuffle(old(Abstract()))
      ensures InOrder(deathTestCaseFilter, Abstract())
    {
      ghost var before := Abstract();
      PermutationSize(before.indices, |before.testCases|);
      ResetEverything();
      UnshuffleRestores(deathTestCaseFilter, before);
    }
  }

  /** Registering a death test case while shuffled is the caller's mistake the
      source warns of: death tests stay first exactly when there is no other
      test case yet, or the first of them is still in its place. */
  lemma RegisteringWhileShuffled(indices: seq<int>, n: nat, deaths: nat)
    requires IsPermutation(indices, n) && deaths <= n && DeathsFirst(indices, deaths)
    ensures |indices| == n
    ensures DeathsFirst(indices + [n], deaths + 1) <==> deaths == n || indices[deaths] == deaths
  {
    PermutationSize(indices, n);
    PermutationDistinct(indices, n);
    var grown := indices + [n];
    if deaths < n && indices[deaths] == deaths {
      forall i | 0 <= i < |grown|
        ensures grown[i] < deaths + 1 <==> i < deaths + 1
      {
        if deaths < i < n {
          assert indices[i] != indices[deaths];
        }
      }
    } else if deaths < n {
      assert grown[deaths] == indices[deaths];
    }
  }
}
