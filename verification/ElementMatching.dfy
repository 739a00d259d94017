/** Google Mock's search for a maximum pairing of elements with matchers, and
    the three steps UnorderedElementsAre builds on it. */
module ElementMatching {
  import opened BipartiteMatching

  /** Which matcher accepts which element: a flat vector of flags in element-major order. */
  class MatchMatrix {
    const numElements: nat
    const numMatchers: nat
    const matched: array<bool>

    ghost predicate Valid() {
      matched.Length == numElements * numMatchers
    }

    constructor (elements: nat, matchers: nat)
      ensures Valid() && fresh(matched)
      ensures numElements == elements && numMatchers == matchers
      ensures Edges() == {}
    {
      numElements, numMatchers := elements, matchers;
      matched := new bool[elements * matchers](_ => false);
    }

    function SpaceIndex(l: nat, r: nat): (i: nat)
      requires Valid() && l < numElements && r < numMatchers
      ensures i < matched.Length
    {
      RowsAreApart(numMatchers, l, r, numElements, 0);
      l * numMatchers + r
    }

    /** A slot of an earlier row comes before every slot of a later one. */
    static lemma {:induction false} RowsAreApart(width: nat, l: nat, r: nat, l': nat, r': nat)
      requires l < l' && r < width
      ensures l * width + r < l' * width + r'
    {
      assert l' * width == (l' - 1) * width + width;
      if l < l' - 1 {
        RowsAreApart(width, l, r, l' - 1, r');
      }
    }

    /** No two coordinates share a slot of the vector. */
    lemma SpaceIndexInjective(l: nat, r: nat, l': nat, r': nat)
      requires Valid() && l < numElements && r < numMatchers && l' < numElements && r' < numMatchers
      requires SpaceIndex(l, r) == SpaceIndex(l', r')
      ensures l == l' && r == r'
    {
      if l < l' {
        RowsAreApart(numMatchers, l, r, l', r');
      } else if l' < l {
        RowsAreApart(numMatchers, l', r', l, r);
      }
    }

    predicate HasEdge(l: nat, r: nat)
      requires Valid() && l < numElements && r < numMatchers
      reads matched
    {
      matched[SpaceIndex(l, r)]
    }

    /** The graph the matrix stands for. */
    ghost function Edges(): set<Edge>
      requires Valid()
      reads matched
    {
      set l: nat, r: nat | l < numElements && r < numMatchers && HasEdge(l, r) :: (l, r)
    }

    method SetEdge(l: nat, r: nat, b: bool)
      requires Valid() && l < numElements && r < numMatchers
      modifies matched
      ensures Edges() == if b then old(Edges()) + {(l, r)} else old(Edges()) - {(l, r)}
    {
      matched[SpaceIndex(l, r)] := b;
      forall l': nat, r': nat | l' < numElements && r' < numMatchers && (l', r') != (l, r)
        ensures HasEdge(l', r') == old(HasEdge(l', r'))
      {
        if SpaceIndex(l, r) == SpaceIndex(l', r') {
          SpaceIndexInjective(l, r, l', r');
        }
      }
      assert HasEdge(l, r) == b;
    }

    /** Adds one to the matrix read as a binary number, least significant slot
        first; false when that leaves it empty. */
    method NextGraph() returns (more: bool)
      requires Valid()
      modifies matched
      ensures more ==> Value(matched[..]) == Value(old(matched[..])) + 1
      ensures !more ==> forall i :: 0 <= i < matched.Length ==> old(matched[i]) && !matched[i]
    {
      ghost var before := matched[..];
      for ilhs := 0 to numElements
        invariant RowStart(ilhs) <= matched.Length
        invariant IsCarried(before, matched[..], RowStart(ilhs))
      {
        ghost var row := RowStart(ilhs);
        RowFits(ilhs);
        for irhs := 0 to numMatchers
          invariant IsCarried(before, matched[..], row + irhs)
        {
          var done := FlipSlot(ilhs, irhs, before);
          if done {
            return true;
          }
        }
      }
      RowStartIsProduct(numElements);
      CarriedThrough(before, matched[..]);
      return false;
    }

    /** Sets a slot, and is done, or clears it and carries on. */
    method FlipSlot(l: nat, r: nat, ghost before: seq<bool>) returns (done: bool)
      requires Valid() && l < numElements && r < numMatchers
      requires IsCarried(before, matched[..], RowStart(l) + r)
      modifies matched
      ensures done ==> Value(matched[..]) == Value(before) + 1
      ensures !done ==> IsCarried(before, matched[..], RowStart(l) + r + 1)
    {
      var b := SpaceIndex(l, r);
      SlotOfRow(l, r);
      ghost var now := matched[..];
      if !matched[b] {
        matched[b] := true;
        assert matched[..] == now[b := true];
        CarryAddsOne(before, b);
        return true;
      }
      CarryMoves(before, now, b);
      matched[b] := false;
      assert matched[..] == now[b := false];
      return false;
    }

    /** Where a row begins, by addition. */
    ghost function RowStart(l: nat): nat {
      if l == 0 then 0 else RowStart(l - 1) + numMatchers
    }

    lemma {:induction false} RowStartIsProduct(l: nat)
      ensures RowStart(l) == l * numMatchers
    {
      if l > 0 {
        RowStartIsProduct(l - 1);
        assert l * numMatchers == (l - 1) * numMatchers + numMatchers;
      }
    }

    lemma RowFits(l: nat)
      requires Valid() && l < numElements
      ensures RowStart(l) + numMatchers == RowStart(l + 1) <= matched.Length
    {
      RowStartIsProduct(l + 1);
      if l + 1 < numElements && numMatchers > 0 {
        RowsAreApart(numMatchers, l + 1, 0, numElements, 0);
      }
    }

    lemma SlotOfRow(l: nat, r: nat)
      requires Valid() && l < numElements && r < numMatchers
      ensures SpaceIndex(l, r) == RowStart(l) + r
    {
      RowStartIsProduct(l);
    }
  }

  /** The number whose binary digits are the flags, least significant first. */
  ghost function Value(flags: seq<bool>): nat {
    if flags == [] then 0 else (if flags[0] then 1 else 0) + 2 * Value(flags[1..])
  }

  /** The flags with the first n cleared. */
  ghost function Carried(flags: seq<bool>, n: nat): seq<bool>
    requires n <= |flags|
  {
    seq(n, _ => false) + flags[n..]
  }

  /** The first n flags were set and are cleared; the others are as before. */
  ghost predicate IsCarried(before: seq<bool>, now: seq<bool>, n: nat) {
    && n <= |before| && now == Carried(before, n)
    && forall i :: 0 <= i < n ==> before[i]
  }

  lemma CarriedThrough(before: seq<bool>, now: seq<bool>)
    requires IsCarried(before, now, |before|)
    ensures |now| == |before| && forall i :: 0 <= i < |before| ==> before[i] && !now[i]
  {
  }

  lemma CarryMoves(before: seq<bool>, now: seq<bool>, n: nat)
    requires IsCarried(before, now, n) && n < |now| && now[n]
    ensures IsCarried(before, now[n := false], n + 1)
  {
    assert now[n] == before[n..][0];
  }

  lemma {:induction false} CarryAddsOne(flags: seq<bool>, n: nat)
    requires n < |flags| && !flags[n] && forall i :: 0 <= i < n ==> flags[i]
    ensures Value(Carried(flags, n)[n := true]) == Value(flags) + 1
  {
    var next := Carried(flags, n)[n := true];
    if n == 0 {
      assert next[1..] == flags[1..];
    } else {
      CarryAddsOne(flags[1..], n - 1);
      assert next[1..] == Carried(flags[1..], n - 1)[n - 1 := true];
    }
  }

  class MaxBipartiteMatchState {
    const graph: MatchMatrix
    const left: array<int>
    const right: array<int>

    ghost predicate Shaped() {
      && graph.Valid()
      && left != right
      && left.Length == graph.numElements && right.Length == graph.numMatchers
    }

    ghost predicate Valid()
      reads graph.matched, left, right
    {
      Shaped() && MutuallyReferent(graph.Edges(), left[..], right[..])
    }

    constructor (g: MatchMatrix)
      requires g.Valid()
      ensures graph == g && fresh(left) && fresh(right) && Valid()
      ensures forall l :: 0 <= l < left.Length ==> left[l] == K_UNUSED
    {
      graph := g;
      left := new int[g.numElements](_ => K_UNUSED);
      right := new int[g.numMatchers](_ => K_UNUSED);
    }

    /** Depth-first search from ilhs for an unmatched right node, along unseen
        right nodes. A failed search changes nothing and leaves its seen nodes
        closed under alternating reachability; a successful one is an
        augmentation. Inside the recursion mutual reference is broken at the
        node ilhs was matched to, and nowhere else. */
    method TryAugment(ilhs: nat, seen: array<bool>, ghost dead: set<nat>) returns (found: bool)
      requires Valid() && ilhs < left.Length
      requires seen.Length == right.Length && seen != graph.matched
      requires left[ilhs] != K_UNUSED ==> seen[left[ilhs]]
      requires Dead(graph.Edges(), right[..], dead)
      modifies left, right, seen
      ensures Grown(old(seen[..]), seen[..])
      ensures found ==> Augmented(graph.Edges(), old(left[..]), old(right[..]), left[..], right[..],
                                  ilhs, old(seen[..]), dead)
      ensures found ==> !(Neighbours(graph.Edges(), ilhs) <= dead)
      ensures !found ==> left[..] == old(left[..]) && right[..] == old(right[..])
      ensures !found ==> AllSeen(Neighbours(graph.Edges(), ilhs), seen[..])
      ensures !found ==> Explored(graph.Edges(), right[..], old(seen[..]), seen[..])
      decreases Unseen(seen[..])
    {
      ghost var g, left0, right0, seen0 := graph.Edges(), left[..], right[..], seen[..];
      for irhs := 0 to graph.numMatchers
        invariant left[..] == left0 && right[..] == right0
        invariant Grown(seen0, seen[..])
        invariant forall r :: 0 <= r < irhs && (ilhs, r) in g ==> seen[r]
        invariant Explored(g, right0, seen0, seen[..])
      {
        if seen[irhs] || !graph.HasEdge(ilhs, irhs) {
          continue;
        }
        assert (ilhs, irhs) in g;
        assert irhs in Neighbours(g, ilhs);
        ghost var before := seen[..];
        seen[irhs] := true;
        ghost var seen1 := seen[..];
        assert seen1 == before[irhs := true];
        SeeingShrinksUnseen(seen0, seen1, irhs);
        if right[irhs] == K_UNUSED {
          LinkToSink(g, left0, right0, ilhs, irhs, seen0, dead);
          Link(ilhs, irhs);
          return true;
        }
        var further := TryAugment(right[irhs], seen, dead);
        if further {
          ghost var left1, right1 := left[..], right[..];
          LinkBehindAugmentation(g, left0, right0, left1, right1, ilhs, irhs, seen0, seen1, dead);
          Link(ilhs, irhs);
          return true;
        }
        DeadEndExplored(g, right0, irhs, seen0, before, seen[..]);
      }
      return false;
    }

    /** Adds flow from ilhs to irhs. */
    method Link(ilhs: nat, irhs: nat)
      requires left != right && ilhs < left.Length && irhs < right.Length
      modifies left, right
      ensures left[..] == old(left[..])[ilhs := irhs] && right[..] == old(right[..])[irhs := ilhs]
    {
      left[ilhs] := irhs;
      right[irhs] := ilhs;
    }

    /** Searches once from every left node and reads off the matching found. The
        right nodes seen by failed searches are dead for good, which is why one
        search a node is enough. */
    method Compute() returns (result: seq<Edge>)
      requires Valid()
      requires forall l :: 0 <= l < left.Length ==> left[l] == K_UNUSED
      modifies left, right
      ensures Valid()
      ensures IsMatching(graph.Edges(), Matched(left[..]))
      ensures IsListOf(result, Matched(left[..]))
      ensures exists lefts, rights :: IsVertexCover(graph.Edges(), lefts, rights) && |lefts| + |rights| == |result|
      ensures forall m :: IsMatching(graph.Edges(), m) ==> |m| <= |result|
    {
      ghost var g := graph.Edges();
      ghost var dead: set<nat> := {};
      for ilhs := 0 to graph.numElements
        invariant MutuallyReferent(g, left[..], right[..])
        invariant Dead(g, right[..], dead)
        invariant forall l: nat :: l < ilhs && left[l] == K_UNUSED ==> Neighbours(g, l) <= dead
        invariant forall l :: ilhs <= l < left.Length ==> left[l] == K_UNUSED
      {
        assert left[ilhs] == K_UNUSED;
        var seen := new bool[graph.numMatchers](_ => false);
        ghost var left0, right0, seen0 := left[..], right[..], seen[..];
        assert seen0 == seq(|seen0|, _ => false);
        var found := TryAugment(ilhs, seen, dead);
        if found {
          AugmentedKeepsDead(g, left0, right0, left[..], right[..], ilhs, seen0, dead);
        } else {
          FailedSearchIsDead(g, left[..], right[..], dead, seen[..]);
          dead := dead + set r: nat | r < |seen[..]| && seen[..][r];
          assert Neighbours(g, ilhs) <= dead;
        }
      }
      DeadIsCover(g, left[..], right[..], dead);
      CoverIsSmall(g, left[..], right[..], dead);
      MatchedIsMatching(g, left[..], right[..]);
      MatchingBelowCover(g, Matched(left[..]), AliveLefts(left[..], dead), dead);
      result := ListMatched();
      forall m | IsMatching(g, m)
        ensures |m| <= |result|
      {
        MatchingBelowCover(g, m, AliveLefts(left[..], dead), dead);
      }
    }

    /** The matched pairs in order of their left node, each once. */
    method ListMatched() returns (result: seq<Edge>)
      requires Valid()
      ensures IsListOf(result, Matched(left[..]))
    {
      result := [];
      for ilhs := 0 to left.Length
        invariant IsListOf(result, MatchedBelow(left[..], ilhs))
      {
        var irhs := left[ilhs];
        if irhs == K_UNUSED {
          assert MatchedBelow(left[..], ilhs + 1) == MatchedBelow(left[..], ilhs);
          continue;
        }
        assert MatchedBelow(left[..], ilhs + 1) == MatchedBelow(left[..], ilhs) + {(ilhs, irhs)};
        ListGrows(result, MatchedBelow(left[..], ilhs), (ilhs, irhs));
        result := result + [(ilhs, irhs)];
      }
      assert Matched(left[..]) == MatchedBelow(left[..], left.Length);
    }
  }

  ghost function MatchedBelow(left: seq<int>, n: nat): set<Edge>
    requires n <= |left|
  {
    set l | 0 <= l < n && left[l] >= 0 :: (l, left[l])
  }

  lemma ListGrows(list: seq<Edge>, edges: set<Edge>, e: Edge)
    requires IsListOf(list, edges) && forall f :: f in edges ==> f.0 < e.0
    ensures IsListOf(list + [e], edges + {e})
  {
    assert (list + [e])[|list|] == e;
    forall f | f in edges
      ensures f in list + [e]
    {
      assert f in list;
    }
  }

  /** The list holds the edges of the set, in order of their elements, each once. */
  ghost predicate IsListOf(list: seq<Edge>, edges: set<Edge>) {
    && |list| == |edges|
    && (forall i :: 0 <= i < |list| ==> list[i] in edges)
    && (forall e :: e in edges ==> e in list)
    && (forall i, j :: 0 <= i < j < |list| ==> list[i].0 < list[j].0)
  }

  /** The edges of a list. */
  ghost function EdgesOf(list: seq<Edge>): set<Edge> {
    set i | 0 <= i < |list| :: list[i]
  }

  /** The pairs returned are a matching of the graph, and no matching of it is larger. */
  method FindMaxBipartiteMatching(g: MatchMatrix) returns (pairs: seq<Edge>)
    requires g.Valid()
    ensures IsMatching(g.Edges(), EdgesOf(pairs)) && IsListOf(pairs, EdgesOf(pairs))
    ensures forall m :: IsMatching(g.Edges(), m) ==> |m| <= |pairs|
  {
    var state := new MaxBipartiteMatchState(g);
    pairs := state.Compute();
    assert EdgesOf(pairs) == Matched(state.left[..]);
  }

  /** True exactly when every matcher can be given an element of its own. */
  method FindPairing(matrix: MatchMatrix) returns (paired: bool)
    requires matrix.Valid()
    ensures paired <==> exists f :: IsAssignment(matrix.Edges(), matrix.numMatchers, f)
  {
    var matches := FindMaxBipartiteMatching(matrix);
    var maxFlow := |matches|;
    paired := maxFlow == matrix.numMatchers;
    ghost var m := EdgesOf(matches);
    if paired {
      ghost var f := FullMatchingAssigns(matrix.Edges(), matrix.numMatchers, m);
    } else {
      forall f | IsAssignment(matrix.Edges(), matrix.numMatchers, f)
        ensures false
      {
        var other := AssignmentMatches(matrix.Edges(), matrix.numMatchers, f);
        MatchingFits(matrix.Edges(), matrix.numMatchers, m);
      }
    }
  }

  /** No row and no column of the graph is empty. */
  ghost predicate NobodyLeftOut(graph: set<Edge>, elements: nat, matchers: nat) {
    && (forall l: nat :: l < elements ==> HasMatcher(graph, l))
    && (forall r: nat :: r < matchers ==> Reaches(graph, r))
  }

  ghost predicate HasMatcher(graph: set<Edge>, l: nat) {
    exists e :: e in graph && e.0 == l
  }

  /** The edges before a position in element-major order. */
  ghost function Scanned(graph: set<Edge>, ilhs: nat, irhs: nat): set<Edge> {
    set e | e in graph && (e.0 < ilhs || (e.0 == ilhs && e.1 < irhs))
  }

  lemma EdgeAdds(graph: set<Edge>, e: Edge)
    ensures forall l :: HasMatcher(graph + {e}, l) <==> HasMatcher(graph, l) || l == e.0
    ensures forall r :: Reaches(graph + {e}, r) <==> Reaches(graph, r) || r == e.1
  {
    assert e in graph + {e};
    forall l: nat | HasMatcher(graph, l)
      ensures HasMatcher(graph + {e}, l)
    {
      var f :| f in graph && f.0 == l;
      assert f in graph + {e};
    }
    forall r: nat | Reaches(graph, r)
      ensures Reaches(graph + {e}, r)
    {
      var f :| f in graph && f.1 == r;
      assert f in graph + {e};
    }
  }

  /** The prefilter: true exactly when every element has a matcher and every matcher an element. */
  method VerifyAllElementsAndMatchersAreMatched(matrix: MatchMatrix) returns (result: bool)
    requires matrix.Valid()
    ensures result <==> NobodyLeftOut(matrix.Edges(), matrix.numElements, matrix.numMatchers)
  {
    ghost var g := matrix.Edges();
    result := true;
    var elementMatched := new bool[matrix.numElements](_ => false);
    var matcherMatched := new bool[matrix.numMatchers](_ => false);
    for ilhs := 0 to matrix.numElements
      invariant forall l :: 0 <= l < matrix.numElements ==> (elementMatched[l] <==> HasMatcher(Scanned(g, ilhs, 0), l))
      invariant forall r :: 0 <= r < matrix.numMatchers ==> (matcherMatched[r] <==> Reaches(Scanned(g, ilhs, 0), r))
    {
      for irhs := 0 to matrix.numMatchers
        invariant forall l :: 0 <= l < matrix.numElements ==> (elementMatched[l] <==> HasMatcher(Scanned(g, ilhs, irhs), l))
        invariant forall r :: 0 <= r < matrix.numMatchers ==> (matcherMatched[r] <==> Reaches(Scanned(g, ilhs, irhs), r))
      {
        ghost var scanned := Scanned(g, ilhs, irhs);
        var matched := matrix.HasEdge(ilhs, irhs);
        assert Scanned(g, ilhs, irhs + 1) == if matched then scanned + {(ilhs, irhs)} else scanned;
        EdgeAdds(scanned, (ilhs, irhs));
        elementMatched[ilhs] := elementMatched[ilhs] || matched;
        matcherMatched[irhs] := matcherMatched[irhs] || matched;
      }
      assert Scanned(g, ilhs, matrix.numMatchers) == Scanned(g, ilhs + 1, 0);
    }
    assert Scanned(g, matrix.numElements, 0) == g;
    for mi := 0 to matrix.numMatchers
      invariant result <==> forall r :: 0 <= r < mi ==> matcherMatched[r]
    {
      if !matcherMatched[mi] {
        result := false;
      }
    }
    for ei := 0 to matrix.numElements
      invariant result <==> (forall r :: 0 <= r < matrix.numMatchers ==> matcherMatched[r])
                             && (forall l :: 0 <= l < ei ==> elementMatched[l])
    {
      if !elementMatched[ei] {
        result := false;
      }
    }
  }

  /** On a square matrix the prefilter rejects nothing that FindPairing accepts. */
  lemma PrefilterSoundWhenSquare(graph: set<Edge>, size: nat, f: seq<nat>)
    requires forall e :: e in graph ==> e.0 < size && e.1 < size
    requires IsAssignment(graph, size, f)
    ensures NobodyLeftOut(graph, size, size)
  {
    forall r: nat | r < size
      ensures Reaches(graph, r)
    {
      assert (f[r], r) in graph;
    }
    var m := AssignmentMatches(graph, size, f);
    forall l: nat | l < size
      ensures HasMatcher(graph, l)
    {
      if !HasMatcher(graph, l) {
        InjectionBound(m, Range(size) - {l}, (e: Edge) => e.0);
      }
    }
  }

  /** Off the square it does: an element nothing matches need not be used. */
  lemma PrefilterTooStrictOffSquare()
    ensures IsAssignment({(0, 0)}, 1, [0]) && !NobodyLeftOut({(0, 0)}, 2, 1)
  {
    assert !HasMatcher({(0, 0)}, 1);
  }

  /** UnorderedElementsAre accepts exactly the containers whose elements can be
      paired off with the matchers, one for one. */
  method MatchAndExplain(matrix: MatchMatrix) returns (accepted: bool)
    requires matrix.Valid()
    ensures accepted <==> matrix.numElements == matrix.numMatchers
                          && exists f :: IsAssignment(matrix.Edges(), matrix.numMatchers, f)
  {
    if matrix.numElements == 0 && matrix.numMatchers == 0 {
      assert IsAssignment(matrix.Edges(), 0, []);
      return true;
    }
    if matrix.numElements != matrix.numMatchers {
      return false;
    }
    var verified := VerifyAllElementsAndMatchersAreMatched(matrix);
    if !verified {
      forall f | IsAssignment(matrix.Edges(), matrix.numMatchers, f)
        ensures false
      {
        PrefilterSoundWhenSquare(matrix.Edges(), matrix.numMatchers, f);
      }
      return false;
    }
    accepted := FindPairing(matrix);
  }
}
