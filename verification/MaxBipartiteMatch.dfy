/** The augmenting-path search for a maximum bipartite matching: MaxBipartiteMatchState and
    FindMaxBipartiteMatching. */
module MaxBipartiteMatch {
  import opened BipartiteMatching
  import opened MatchMatrices

  /** The all-ones size_t that marks an unmatched node. */
  const UNUSED: int := -1

  // ----- the flow stored in two vectors

  /** Both vectors have the graph's sizes, and every left-to-right link is an edge. */
  ghost predicate LinksAreEdges(g: Graph, left: seq<int>, right: seq<int>) {
    && |left| == g.lhs && |right| == g.rhs
    && (forall i :: 0 <= i < |left| && left[i] != UNUSED ==> 0 <= left[i] < g.rhs && (i, left[i]) in g.edges)
    && (forall j :: 0 <= j < |right| && right[j] != UNUSED ==> 0 <= right[j] < g.lhs)
  }

  /** Elements are mutually referent, except that right node `open` may still name a left node
      that has moved on. With open == UNUSED there is no exception. */
  ghost predicate MutuallyReferent(g: Graph, left: seq<int>, right: seq<int>, open: int) {
    && LinksAreEdges(g, left, right)
    && (forall i :: 0 <= i < |left| && left[i] != UNUSED ==> right[left[i]] == i)
    && (forall j :: 0 <= j < |right| && j != open && right[j] != UNUSED ==> left[right[j]] == j)
  }

  ghost predicate AllNeighboursIn(g: Graph, i: int, d: set<int>) {
    forall j :: (i, j) in g.edges ==> j in d
  }

  /** d is a dead end of the residual graph: its right nodes are all matched, and the partners of
      its right nodes lead nowhere but back into d. */
  ghost predicate DeadEnd(g: Graph, right: seq<int>, d: set<int>) {
    && |right| == g.rhs
    && (forall j :: j in d ==> 0 <= j < g.rhs && right[j] != UNUSED && AllNeighboursIn(g, right[j], d))
  }

  ghost function Marked(seen: seq<bool>): (s: set<int>) {
    set k: int | 0 <= k < |seen| && seen[k]
  }

  ghost function Unmarked(seen: seq<bool>): (s: set<int>) {
    set k: int | 0 <= k < |seen| && !seen[k]
  }

  ghost function UsedNodes(side: seq<int>): (s: set<int>) {
    set k: int | 0 <= k < |side| && side[k] != UNUSED
  }

  // ----- what one search does to the two vectors and to the marks

  ghost predicate Grows(seen: seq<bool>, seen': seq<bool>) {
    && |seen'| == |seen|
    && (forall j :: 0 <= j < |seen| && seen[j] ==> seen'[j])
  }

  ghost predicate NewlySeen(seen: seq<bool>, seen': seq<bool>, j: int) {
    0 <= j < |seen| && j < |seen'| && !seen[j] && seen'[j]
  }

  /** A failed search: everything it marked, and ilhs itself, only leads to marked nodes. */
  ghost predicate Stuck(g: Graph, right: seq<int>, seen: seq<bool>, seen': seq<bool>, ilhs: nat) {
    && |right| == |seen| && Grows(seen, seen')
    && AllNeighboursIn(g, ilhs, Marked(seen'))
    && (forall j :: NewlySeen(seen, seen', j) ==> right[j] != UNUSED && AllNeighboursIn(g, right[j], Marked(seen')))
  }

  /** A successful search from ilhs: ilhs is matched to a newly seen node, it is the only left node
      that may go from unused to used, only newly seen right nodes and their old partners change,
      and the dead end is left alone. Only the old partner of ilhs may still name it. */
  ghost predicate Augmented(g: Graph, left: seq<int>, right: seq<int>, seen: seq<bool>,
                            left': seq<int>, right': seq<int>, seen': seq<bool>,
                            ilhs: nat, dead: set<int>) {
    && ilhs < |left| == |left'| && |right| == |right'| == |seen| && Grows(seen, seen')
    && MutuallyReferent(g, left', right', left[ilhs])
    && NewlySeen(seen, seen', left'[ilhs])
    && (forall i :: 0 <= i < |left| && i != ilhs && left'[i] != left[i] ==>
          left'[i] != UNUSED && NewlySeen(seen, seen', left[i]))
    && (forall j :: 0 <= j < |right| && right'[j] != right[j] ==> NewlySeen(seen, seen', j) && j !in dead)
  }

  /** The path ends here: irhs is free. */
  lemma LinkFree(g: Graph, left: seq<int>, right: seq<int>, seen: seq<bool>, seen': seq<bool>,
                 ilhs: nat, irhs: nat, dead: set<int>)
    requires MutuallyReferent(g, left, right, UNUSED) && DeadEnd(g, right, dead)
    requires ilhs < |left| && irhs < |right| == |seen| && (ilhs, irhs) in g.edges
    requires left[ilhs] != UNUSED ==> seen[left[ilhs]]
    requires Grows(seen, seen') && !seen[irhs] && seen'[irhs] && right[irhs] == UNUSED
    ensures Augmented(g, left, right, seen, left[ilhs := irhs], right[irhs := ilhs], seen', ilhs, dead)
  {
  }

  /** The path goes on: the partner of irhs has found another place, so ilhs takes irhs over. */
  lemma LinkTaken(g: Graph, left: seq<int>, right: seq<int>, seen: seq<bool>, marked: seq<bool>,
                  left': seq<int>, right': seq<int>, seen': seq<bool>, ilhs: nat, irhs: nat, dead: set<int>)
    requires MutuallyReferent(g, left, right, UNUSED) && DeadEnd(g, right, dead)
    requires ilhs < |left| && irhs < |right| == |seen| && (ilhs, irhs) in g.edges
    requires left[ilhs] != UNUSED ==> seen[left[ilhs]]
    requires Grows(seen, marked) && !seen[irhs] && marked[irhs] && right[irhs] != UNUSED
    requires Augmented(g, left, right, marked, left', right', seen', right[irhs], dead)
    requires irhs !in dead
    ensures Augmented(g, left, right, seen, left'[ilhs := irhs], right'[irhs := ilhs], seen', ilhs, dead)
  {
    assert right'[irhs] == right[irhs] != ilhs;
    assert left'[ilhs] == left[ilhs];
  }

  class MaxBipartiteMatchState {
    const graph: MatchMatrix
    var left: seq<int>
    var right: seq<int>

    constructor (graph: MatchMatrix)
      requires graph.Valid()
      ensures this.graph == graph
      ensures MutuallyReferent(graph.ToGraph(), left, right, UNUSED)
      ensures forall i :: 0 <= i < |left| ==> left[i] == UNUSED
      ensures forall j :: 0 <= j < |right| ==> right[j] == UNUSED
    {
      this.graph := graph;
      left := seq(graph.numElements, _ => UNUSED);
      right := seq(graph.numMatchers, _ => UNUSED);
    }

    /** Looks for an augmenting path that begins at ilhs. `dead` is any dead end known before the call:
        the search never finds its way out of one and never changes one. */
    method TryAugment(ilhs: nat, seen: array<bool>, ghost dead: set<int>) returns (found: bool)
      requires graph.Valid() && ilhs < graph.numElements && seen.Length == graph.numMatchers
      requires MutuallyReferent(graph.ToGraph(), left, right, UNUSED)
      requires left[ilhs] != UNUSED ==> seen[left[ilhs]]
      requires DeadEnd(graph.ToGraph(), right, dead)
      modifies this`left, this`right, seen
      ensures found ==> Augmented(graph.ToGraph(), old(left), old(right), old(seen[..]),
                                  left, right, seen[..], ilhs, dead)
      ensures !found ==> left == old(left) && right == old(right)
      ensures !found ==> Stuck(graph.ToGraph(), right, old(seen[..]), seen[..], ilhs)
      ensures AllNeighboursIn(graph.ToGraph(), ilhs, dead) ==> !found
      decreases Unmarked(seen[..])
    {
      ghost var g, was := graph.ToGraph(), seen[..];
      var irhs := 0;
      while irhs < graph.numMatchers
        invariant 0 <= irhs <= graph.numMatchers
        invariant left == old(left) && right == old(right)
        invariant Grows(was, seen[..])
        invariant forall k :: 0 <= k < irhs ==> seen[k] || (ilhs, k) !in g.edges
        invariant forall j :: NewlySeen(was, seen[..], j) ==>
                    right[j] != UNUSED && AllNeighboursIn(g, right[j], Marked(seen[..]))
      {
        var edge := graph.HasEdge(ilhs, irhs);
        if !seen[irhs] && edge {
          ghost var before := seen[..];
          seen[irhs] := true;
          ghost var marked := seen[..];
          assert irhs in Unmarked(was) - Unmarked(marked) && Unmarked(marked) <= Unmarked(was);
          if right[irhs] == UNUSED {
            LinkFree(g, left, right, was, marked, ilhs, irhs, dead);
            left, right := left[ilhs := irhs], right[irhs := ilhs];
            return true;
          }
          var found' := TryAugment(right[irhs], seen, dead);
          if found' {
            LinkTaken(g, old(left), old(right), was, marked, left, right, seen[..], ilhs, irhs, dead);
            left, right := left[ilhs := irhs], right[irhs := ilhs];
            return true;
          }
          StillStuck(g, right, was, before, marked, seen[..], irhs);
        }
        irhs := irhs + 1;
      }
      return false;
    }

    /** Returns the edges of a maximum match, in increasing order of the left node. */
    method Compute() returns (result: Pairs)
      requires graph.Valid()
      requires MutuallyReferent(graph.ToGraph(), left, right, UNUSED)
      requires forall i :: 0 <= i < |left| ==> left[i] == UNUSED
      requires forall j :: 0 <= j < |right| ==> right[j] == UNUSED
      modifies this`left, this`right
      ensures IsMaximum(graph.ToGraph(), result)
      ensures forall k, m :: 0 <= k < m < |result| ==> result[k].0 < result[m].0
    {
      ghost var g := graph.ToGraph();
      ghost var dead: set<int> := {};  // the union of the marks of all failed searches
      var seen := new bool[graph.numMatchers];
      var ilhs := 0;
      while ilhs < graph.numElements
        invariant 0 <= ilhs <= graph.numElements
        invariant MutuallyReferent(g, left, right, UNUSED)
        invariant forall i :: ilhs <= i < graph.numElements ==> left[i] == UNUSED
        invariant DeadEnd(g, right, dead)
        invariant forall i :: 0 <= i < ilhs && left[i] == UNUSED ==> AllNeighboursIn(g, i, dead)
      {
        assert left[ilhs] == UNUSED;  // the source's own run-time check
        forall k | 0 <= k < seen.Length { seen[k] := false; }
        ghost var left0, right0, blank := left, right, seen[..];
        var found := TryAugment(ilhs, seen, dead);
        if found {
          DeadEndSurvives(g, left0, right0, blank, left, right, seen[..], ilhs, dead);
        } else {
          DeadEndGrows(g, right, blank, seen[..], ilhs, dead);
          dead := dead + Marked(seen[..]);
        }
        ilhs := ilhs + 1;
      }
      result := CollectPairs();
      assert IsMatching(g, result);
      forall q | IsMatching(g, q) ensures |q| <= |result| {
        NoLargerMatching(g, left, right, dead, q);
      }
    }

    /** The second loop of Compute: lists the links held by `left`. */
    method CollectPairs() returns (result: Pairs)
      requires forall i :: 0 <= i < |left| ==> left[i] == UNUSED || left[i] >= 0
      ensures forall k :: 0 <= k < |result| ==> result[k].0 < |left| && left[result[k].0] == result[k].1
      ensures forall k, m :: 0 <= k < m < |result| ==> result[k].0 < result[m].0
      ensures |result| == |UsedNodes(left)|
    {
      result := [];
      var ilhs := 0;
      while ilhs < |left|
        invariant 0 <= ilhs <= |left|
        invariant forall k :: 0 <= k < |result| ==> result[k].0 < ilhs && left[result[k].0] == result[k].1
        invariant forall k, m :: 0 <= k < m < |result| ==> result[k].0 < result[m].0
        invariant |result| == |UsedNodes(left[..ilhs])|
      {
        var irhs := left[ilhs];
        if irhs != UNUSED {
          result := result + [(ilhs, irhs)];
          assert UsedNodes(left[..ilhs + 1]) == UsedNodes(left[..ilhs]) + {ilhs};
        } else {
          assert UsedNodes(left[..ilhs + 1]) == UsedNodes(left[..ilhs]);
        }
        ilhs := ilhs + 1;
      }
      assert left[..ilhs] == left;
    }
  }

  /** A failed search from the partner of irhs keeps what earlier failed searches established. */
  lemma StillStuck(g: Graph, right: seq<int>, was: seq<bool>, before: seq<bool>, marked: seq<bool>,
                   now: seq<bool>, irhs: nat)
    requires |right| == |was| == |before| && Grows(was, before)
    requires irhs < |before| && marked == before[irhs := true] && right[irhs] >= 0
    requires forall j :: NewlySeen(was, before, j) ==>
               right[j] != UNUSED && AllNeighboursIn(g, right[j], Marked(before))
    requires Stuck(g, right, marked, now, right[irhs])
    ensures Grows(was, now) && Grows(before, now) && now[irhs]
    ensures forall j :: NewlySeen(was, now, j) ==>
              right[j] != UNUSED && AllNeighboursIn(g, right[j], Marked(now))
  {
    assert Marked(before) <= Marked(now);
    forall j | NewlySeen(was, now, j)
      ensures right[j] != UNUSED && AllNeighboursIn(g, right[j], Marked(now))
    {
      if j != irhs && !NewlySeen(marked, now, j) {
        assert NewlySeen(was, before, j);
      }
    }
  }

  lemma DeadEndSurvives(g: Graph, left: seq<int>, right: seq<int>, seen: seq<bool>,
                        left': seq<int>, right': seq<int>, seen': seq<bool>, ilhs: nat, dead: set<int>)
    requires DeadEnd(g, right, dead) && Augmented(g, left, right, seen, left', right', seen', ilhs, dead)
    ensures DeadEnd(g, right', dead)
  {
  }

  /** Nothing was marked before a search from the root, so all its marks form a dead end. */
  lemma DeadEndGrows(g: Graph, right: seq<int>, seen: seq<bool>, seen': seq<bool>, ilhs: nat, dead: set<int>)
    requires DeadEnd(g, right, dead) && Stuck(g, right, seen, seen', ilhs)
    requires forall k :: 0 <= k < |seen| ==> !seen[k]
    ensures DeadEnd(g, right, dead + Marked(seen'))
  {
    forall j | j in Marked(seen') ensures right[j] != UNUSED && AllNeighboursIn(g, right[j], Marked(seen')) {
      assert NewlySeen(seen, seen', j);
    }
  }

  /** Why visiting each left node once is enough: when every unmatched left node only leads into a
      dead end, each pair of any other matching can be charged to a matched left node of its own. */
  lemma NoLargerMatching(g: Graph, left: seq<int>, right: seq<int>, dead: set<int>, q: Pairs)
    requires InRange(g) && MutuallyReferent(g, left, right, UNUSED) && DeadEnd(g, right, dead)
    requires forall i :: 0 <= i < |left| && left[i] == UNUSED ==> AllNeighboursIn(g, i, dead)
    requires IsMatching(g, q)
    ensures |q| <= |UsedNodes(left)|
  {
    var payer: seq<int> := seq(|q|, k requires 0 <= k < |q| => Payer(g, right, dead, q[k]));
    forall k | 0 <= k < |q| ensures payer[k] in UsedNodes(left) {
      assert q[k] in g.edges;
    }
    forall k, m | 0 <= k < m < |q| ensures payer[k] != payer[m] {
      assert q[k] in g.edges && q[m] in g.edges;
    }
    InjectiveFits(payer, UsedNodes(left));
  }

  ghost function Payer(g: Graph, right: seq<int>, dead: set<int>, pair: (nat, nat)): int
    requires DeadEnd(g, right, dead)
  {
    if pair.1 in dead then right[pair.1] else pair.0
  }

  method FindMaxBipartiteMatching(g: MatchMatrix) returns (result: Pairs)
    requires g.Valid()
    ensures IsMaximum(g.ToGraph(), result)
    ensures forall k, m :: 0 <= k < m < |result| ==> result[k].0 < result[m].0
  {
    var state := new MaxBipartiteMatchState(g);
    result := state.Compute();
  }
}
