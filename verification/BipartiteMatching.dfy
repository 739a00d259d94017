/** The theory of bipartite matchings that the maximum-matching search of
    Google Mock rests on: what a matching is, when the two mutually referent
    vectors describe one, and why a set of dead right-hand nodes certifies
    that no matching of the same graph is larger. */
module BipartiteMatching {

  /** An edge {element, matcher}. */
  type Edge = (nat, nat)

  /** The source's kUnused, the largest size_t, is modelled by a value no index takes. */
  const K_UNUSED: int := -1

  ghost predicate IsMatching(graph: set<Edge>, m: set<Edge>) {
    && m <= graph
    && forall e, f :: e in m && f in m && (e.0 == f.0 || e.1 == f.1) ==> e == f
  }

  /** Entries are unused or in range, and every used left entry follows an edge. */
  ghost predicate WellFormed(graph: set<Edge>, left: seq<int>, right: seq<int>) {
    && (forall l :: 0 <= l < |left| && left[l] != K_UNUSED ==> 0 <= left[l] < |right| && (l, left[l]) in graph)
    && (forall r :: 0 <= r < |right| && right[r] != K_UNUSED ==> 0 <= right[r] < |left|)
  }

  /** right[left[l]] == l for every used l. */
  ghost predicate LeftReferent(left: seq<int>, right: seq<int>) {
    forall l :: 0 <= l < |left| && 0 <= left[l] < |right| ==> right[left[l]] == l
  }

  /** left[right[r]] == r for every used r other than the exception. */
  ghost predicate RightReferent(left: seq<int>, right: seq<int>, exception: int) {
    forall r :: 0 <= r < |right| && 0 <= right[r] < |left| && r != exception ==> left[right[r]] == r
  }

  ghost predicate MutuallyReferent(graph: set<Edge>, left: seq<int>, right: seq<int>) {
    WellFormed(graph, left, right) && LeftReferent(left, right) && RightReferent(left, right, K_UNUSED)
  }

  ghost function Neighbours(graph: set<Edge>, l: nat): set<nat> {
    set e | e in graph && e.0 == l :: e.1
  }

  /** A set of matched right nodes closed under alternating reachability: no
      search that enters it can ever reach an unmatched right node. */
  ghost predicate Dead(graph: set<Edge>, right: seq<int>, dead: set<nat>) {
    forall r :: r in dead ==> r < |right| && right[r] >= 0 && Neighbours(graph, right[r]) <= dead
  }

  /** What a search that started at ilhs and succeeded has done to the two vectors. */
  ghost predicate Augmented(graph: set<Edge>, left: seq<int>, right: seq<int>, left': seq<int>, right': seq<int>,
                            ilhs: nat, seen: seq<bool>, dead: set<nat>)
    requires ilhs < |left| && |left'| == |left| && |right'| == |right| == |seen|
  {
    && WellFormed(graph, left', right')
    && LeftReferent(left', right')
    && RightReferent(left', right', left[ilhs])
    && left'[ilhs] != K_UNUSED && !seen[left'[ilhs]]
    && (forall l :: 0 <= l < |left| && l != ilhs ==> (left'[l] == K_UNUSED <==> left[l] == K_UNUSED))
    && (forall r :: 0 <= r < |right| && right[r] != K_UNUSED ==> right'[r] != K_UNUSED)
    && (forall r :: 0 <= r < |right| && (seen[r] || r in dead) ==> right'[r] == right[r])
  }

  /** Linking ilhs to an unmatched right node is an augmentation. */
  lemma LinkToSink(graph: set<Edge>, left: seq<int>, right: seq<int>, ilhs: nat, irhs: nat,
                   seen: seq<bool>, dead: set<nat>)
    requires MutuallyReferent(graph, left, right) && Dead(graph, right, dead)
    requires ilhs < |left| && irhs < |right| == |seen| && (ilhs, irhs) in graph
    requires right[irhs] == K_UNUSED && !seen[irhs]
    requires left[ilhs] != K_UNUSED ==> seen[left[ilhs]]
    ensures Augmented(graph, left, right, left[ilhs := irhs], right[irhs := ilhs], ilhs, seen, dead)
  {
  }

  /** Every node seen before is still seen. */
  ghost predicate Grown(seen: seq<bool>, seen': seq<bool>) {
    |seen'| == |seen| && forall r :: 0 <= r < |seen| && seen[r] ==> seen'[r]
  }

  ghost predicate AllSeen(nodes: set<nat>, seen: seq<bool>) {
    forall r :: r in nodes ==> r < |seen| && seen[r]
  }

  /** Every newly seen node is matched, and all its partner's neighbours are seen. */
  ghost predicate Explored(graph: set<Edge>, right: seq<int>, seen: seq<bool>, seen': seq<bool>)
    requires |right| == |seen| == |seen'|
  {
    forall r :: 0 <= r < |seen| && seen'[r] && !seen[r] ==> right[r] >= 0 && AllSeen(Neighbours(graph, right[r]), seen')
  }

  ghost function Unseen(seen: seq<bool>): set<nat> {
    set r: nat | r < |seen| && !seen[r]
  }

  lemma SeeingShrinksUnseen(seen: seq<bool>, seen': seq<bool>, r: nat)
    requires Grown(seen, seen') && r < |seen| && !seen[r] && seen'[r]
    ensures Unseen(seen') < Unseen(seen)
  {
    assert r in Unseen(seen);
  }

  /** What is explored stays explored after one more dead end, the matched node irhs. */
  lemma DeadEndExplored(graph: set<Edge>, right: seq<int>, irhs: nat,
                        seen: seq<bool>, before: seq<bool>, after: seq<bool>)
    requires |right| == |seen| && Grown(seen, before) && irhs < |seen| && right[irhs] >= 0
    requires Explored(graph, right, seen, before)
    requires Grown(before[irhs := true], after) && Explored(graph, right, before[irhs := true], after)
    requires AllSeen(Neighbours(graph, right[irhs]), after)
    ensures Explored(graph, right, seen, after)
  {
    forall r | 0 <= r < |seen| && after[r] && !seen[r]
      ensures right[r] >= 0 && AllSeen(Neighbours(graph, right[r]), after)
    {
      if r != irhs && before[r] {
        assert AllSeen(Neighbours(graph, right[r]), before);
      }
    }
  }

  /** Linking ilhs to the right node whose former partner has just been moved
      elsewhere is an augmentation, and repairs the reference the recursive
      search left broken. */
  lemma LinkBehindAugmentation(graph: set<Edge>, left: seq<int>, right: seq<int>, left': seq<int>, right': seq<int>,
                               ilhs: nat, irhs: nat, seen: seq<bool>, seen': seq<bool>, dead: set<nat>)
    requires MutuallyReferent(graph, left, right)
    requires |left'| == |left| && |right'| == |right| == |seen| && Grown(seen, seen')
    requires ilhs < |left| && irhs < |right| && (ilhs, irhs) in graph
    requires right[irhs] != K_UNUSED && !seen[irhs] && seen'[irhs] && irhs !in dead
    requires left[ilhs] != K_UNUSED ==> seen[left[ilhs]]
    requires Augmented(graph, left, right, left', right', right[irhs], seen', dead)
    ensures Augmented(graph, left, right, left'[ilhs := irhs], right'[irhs := ilhs], ilhs, seen, dead)
  {
    var partner := right[irhs];
    assert left[partner] == irhs;
    assert partner != ilhs;
    assert right'[irhs] == partner;
    if left[ilhs] != K_UNUSED {
      assert right[left[ilhs]] == ilhs;
      assert right'[left[ilhs]] == ilhs;
      assert left'[ilhs] == left[ilhs];
    }
  }

  /** The edges the left vector describes. */
  ghost function Matched(left: seq<int>): set<Edge> {
    set l | 0 <= l < |left| && left[l] >= 0 :: (l, left[l])
  }

  lemma MatchedIsMatching(graph: set<Edge>, left: seq<int>, right: seq<int>)
    requires MutuallyReferent(graph, left, right)
    ensures IsMatching(graph, Matched(left))
  {
  }

  /** An injective image is no smaller. */
  lemma {:induction false} InjectionBound<S, T>(a: set<S>, b: set<T>, f: S -> T)
    requires forall e :: e in a ==> f(e) in b
    requires forall d, e :: d in a && e in a && f(d) == f(e) ==> d == e
    ensures |a| <= |b|
  {
    if a != {} {
      var e :| e in a;
      InjectionBound(a - {e}, b - {f(e)}, f);
    }
  }

  ghost predicate IsVertexCover(graph: set<Edge>, lefts: set<nat>, rights: set<nat>) {
    forall e :: e in graph ==> e.0 in lefts || e.1 in rights
  }

  /** A matching has no more edges than a vertex cover has nodes. */
  lemma MatchingBelowCover(graph: set<Edge>, m: set<Edge>, lefts: set<nat>, rights: set<nat>)
    requires IsMatching(graph, m) && IsVertexCover(graph, lefts, rights)
    ensures |m| <= |lefts| + |rights|
  {
    var onLeft := set e | e in m && e.0 in lefts;
    InjectionBound(onLeft, lefts, (e: Edge) => e.0);
    InjectionBound(m - onLeft, rights, (e: Edge) => e.1);
  }

  /** The left nodes matched to a node that is not dead. */
  ghost function AliveLefts(left: seq<int>, dead: set<nat>): set<nat> {
    set l: nat | l < |left| && left[l] >= 0 && left[l] !in dead
  }

  /** Where every unmatched left node has only dead neighbours, the dead right
      nodes with the left nodes matched elsewhere touch every edge. */
  lemma DeadIsCover(graph: set<Edge>, left: seq<int>, right: seq<int>, dead: set<nat>)
    requires MutuallyReferent(graph, left, right) && Dead(graph, right, dead)
    requires forall e :: e in graph ==> e.0 < |left| && e.1 < |right|
    requires forall l: nat :: l < |left| && left[l] == K_UNUSED ==> Neighbours(graph, l) <= dead
    ensures IsVertexCover(graph, AliveLefts(left, dead), dead)
  {
    forall e | e in graph && e.1 !in dead
      ensures e.0 in AliveLefts(left, dead)
    {
      assert e.1 in Neighbours(graph, e.0);
    }
  }

  /** There are no more of those nodes than matched edges: each has an edge of its own. */
  lemma CoverIsSmall(graph: set<Edge>, left: seq<int>, right: seq<int>, dead: set<nat>)
    requires MutuallyReferent(graph, left, right) && Dead(graph, right, dead)
    ensures |AliveLefts(left, dead)| + |dead| <= |Matched(left)|
  {
    var m := Matched(left);
    var onDead := set e | e in m && e.1 in dead;
    InjectionBound(dead, onDead, (r: nat) => if r < |right| && right[r] >= 0 then (right[r], r) else (0, r));
    InjectionBound(AliveLefts(left, dead), m - onDead,
                   (l: nat) => if l < |left| && left[l] >= 0 then (l, left[l]) else (l, 0));
  }

  /** A failed search adds its seen nodes to the dead ones. */
  lemma FailedSearchIsDead(graph: set<Edge>, left: seq<int>, right: seq<int>, dead: set<nat>, seen: seq<bool>)
    requires Dead(graph, right, dead) && |seen| == |right|
    requires Explored(graph, right, seq(|seen|, _ => false), seen)
    ensures Dead(graph, right, dead + set r: nat | r < |seen| && seen[r])
  {
  }

  /** The nodes of one side that are matched. */
  ghost function UsedEntries(side: seq<int>): set<nat> {
    set i: nat | i < |side| && side[i] >= 0
  }

  /** A top-level success restores mutual reference, and matches exactly one
      more node on each side without unmatching any. */
  lemma AugmentedFromTheTop(graph: set<Edge>, left: seq<int>, right: seq<int>, left': seq<int>, right': seq<int>,
                            ilhs: nat, seen: seq<bool>, dead: set<nat>)
    requires ilhs < |left| && |left'| == |left| && |right'| == |right| == |seen|
    requires MutuallyReferent(graph, left, right) && left[ilhs] == K_UNUSED
    requires Augmented(graph, left, right, left', right', ilhs, seen, dead)
    ensures MutuallyReferent(graph, left', right')
    ensures UsedEntries(left') == UsedEntries(left) + {ilhs}
    ensures UsedEntries(right) <= UsedEntries(right') && |UsedEntries(right')| == |UsedEntries(right)| + 1
  {
    MatchedSidesEqual(graph, left, right);
    MatchedSidesEqual(graph, left', right');
  }

  /** As many left nodes are matched as right ones. */
  lemma MatchedSidesEqual(graph: set<Edge>, left: seq<int>, right: seq<int>)
    requires MutuallyReferent(graph, left, right)
    ensures |UsedEntries(left)| == |UsedEntries(right)|
  {
    InjectionBound(UsedEntries(left), UsedEntries(right),
                   (l: nat) => if l < |left| && left[l] >= 0 then left[l] as nat else 0);
    InjectionBound(UsedEntries(right), UsedEntries(left),
                   (r: nat) => if r < |right| && right[r] >= 0 then right[r] as nat else 0);
  }

  /** An augmentation leaves every dead node dead. */
  lemma AugmentedKeepsDead(graph: set<Edge>, left: seq<int>, right: seq<int>, left': seq<int>, right': seq<int>,
                           ilhs: nat, seen: seq<bool>, dead: set<nat>)
    requires ilhs < |left| && |left'| == |left| && |right'| == |right| == |seen|
    requires Dead(graph, right, dead)
    requires Augmented(graph, left, right, left', right', ilhs, seen, dead)
    ensures Dead(graph, right', dead)
  {
  }

  /** An assignment of an element to every matcher, no element used twice. */
  ghost predicate IsAssignment(graph: set<Edge>, matchers: nat, f: seq<nat>) {
    && |f| == matchers
    && (forall r :: 0 <= r < matchers ==> (f[r], r) in graph)
    && (forall r, s :: 0 <= r < s < matchers ==> f[r] != f[s])
  }

  ghost function Range(n: nat): (s: set<nat>)
    ensures |s| == n && forall k: nat :: k in s <==> k < n
  {
    if n == 0 then {} else Range(n - 1) + {n - 1}
  }

  /** A matching has at most as many edges as there are matchers. */
  lemma MatchingFits(graph: set<Edge>, matchers: nat, m: set<Edge>)
    requires IsMatching(graph, m) && forall e :: e in graph ==> e.1 < matchers
    ensures |m| <= matchers
  {
    InjectionBound(m, Range(matchers), (e: Edge) => e.1);
  }

  ghost predicate Reaches(m: set<Edge>, r: nat) {
    exists e :: e in m && e.1 == r
  }

  /** A matching with as many edges as there are matchers assigns an element to each. */
  lemma FullMatchingAssigns(graph: set<Edge>, matchers: nat, m: set<Edge>) returns (f: seq<nat>)
    requires IsMatching(graph, m) && |m| == matchers && forall e :: e in graph ==> e.1 < matchers
    ensures IsAssignment(graph, matchers, f)
  {
    forall r: nat | r < matchers
      ensures Reaches(m, r)
    {
      if !Reaches(m, r) {
        InjectionBound(m, Range(matchers) - {r}, (e: Edge) => e.1);
      }
    }
    f := [];
    while |f| < matchers
      invariant |f| <= matchers
      invariant forall r :: 0 <= r < |f| ==> (f[r], r) in m
    {
      assert Reaches(m, |f|);
      var e :| e in m && e.1 == |f|;
      f := f + [e.0];
    }
    forall r, s | 0 <= r < s < matchers
      ensures f[r] != f[s]
    {
      assert (f[r], r) in m && (f[s], s) in m;
    }
  }

  /** An assignment is a matching with one edge for every matcher. */
  lemma AssignmentMatches(graph: set<Edge>, matchers: nat, f: seq<nat>) returns (m: set<Edge>)
    requires IsAssignment(graph, matchers, f)
    ensures IsMatching(graph, m) && |m| == matchers
  {
    m := {};
    for r := 0 to matchers
      invariant m <= graph && |m| == r
      invariant forall e :: e in m ==> e.1 < r && e.0 == f[e.1]
    {
      m := m + {(f[r], r)};
    }
  }
}
