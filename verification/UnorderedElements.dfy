/** The decision procedure behind UnorderedElementsAre, IsSubsetOf and IsSupersetOf, and the
    exhaustive comparison of the two matching algorithms. */
module UnorderedElements {
  import opened BipartiteMatching
  import opened MatchMatrices
  import MaxBipartiteMatch
  import BacktrackingMatch

  /** The pairing that the match flags ask for: under Superset every matcher, and under Subset every
      element, has a partner of its own. Under both flags this is a bijection. */
  ghost predicate PairingExists(g: Graph, superset: bool, subset: bool) {
    exists q :: IsMatching(g, q) && (superset ==> CoversRight(g, q)) && (subset ==> CoversLeft(g, q))
  }

  class UnorderedElementsAreMatcherImplBase {
    const superset: bool  // match_flags_ & Superset
    const subset: bool    // match_flags_ & Subset

    constructor (superset: bool, subset: bool)
      ensures this.superset == superset && this.subset == subset
    {
      this.superset, this.subset := superset, subset;
    }

    /** Checks that every matcher (Superset) and every element (Subset) takes part in some edge. */
    method VerifyMatchMatrix(matrix: MatchMatrix) returns (result: bool)
      requires matrix.Valid()
      ensures result <==>
              && (superset ==> forall j :: 0 <= j < matrix.numMatchers ==> RightTouched(matrix.ToGraph(), j))
              && (subset ==> forall i :: 0 <= i < matrix.numElements ==> LeftTouched(matrix.ToGraph(), i))
    {
      result := true;
      var elementMatched, matcherMatched := MarkMatched(matrix);
      if superset {
        var mi := 0;
        while mi < matcherMatched.Length
          invariant 0 <= mi <= matcherMatched.Length
          invariant result <==> forall j :: 0 <= j < mi ==> matcherMatched[j]
        {
          if !matcherMatched[mi] {
            result := false;
          }
          mi := mi + 1;
        }
      }
      ghost var allMatchers := result;
      if subset {
        var ei := 0;
        while ei < elementMatched.Length
          invariant 0 <= ei <= elementMatched.Length
          invariant result <==> allMatchers && forall i :: 0 <= i < ei ==> elementMatched[i]
        {
          if !elementMatched[ei] {
            result := false;
          }
          ei := ei + 1;
        }
      }
    }

    /** The first loop of VerifyMatchMatrix: which nodes of either side take part in an edge. */
    method MarkMatched(matrix: MatchMatrix) returns (elementMatched: array<bool>, matcherMatched: array<bool>)
      requires matrix.Valid()
      ensures elementMatched.Length == matrix.numElements && matcherMatched.Length == matrix.numMatchers
      ensures forall i :: 0 <= i < matrix.numElements ==> (elementMatched[i] <==> LeftTouched(matrix.ToGraph(), i))
      ensures forall j :: 0 <= j < matrix.numMatchers ==> (matcherMatched[j] <==> RightTouched(matrix.ToGraph(), j))
    {
      ghost var g := matrix.ToGraph();
      elementMatched := new bool[matrix.numElements](_ => false);
      matcherMatched := new bool[matrix.numMatchers](_ => false);
      var ilhs := 0;
      while ilhs < matrix.numElements
        invariant 0 <= ilhs <= matrix.numElements
        invariant forall i :: 0 <= i < matrix.numElements ==>
                    (elementMatched[i] <==> i < ilhs && LeftTouched(g, i))
        invariant forall j :: 0 <= j < matrix.numMatchers ==> (matcherMatched[j] <==> FromBelow(g, ilhs, j))
      {
        var irhs := 0;
        while irhs < matrix.numMatchers
          invariant 0 <= irhs <= matrix.numMatchers
          invariant forall i :: 0 <= i < matrix.numElements && i != ilhs ==>
                      (elementMatched[i] <==> i < ilhs && LeftTouched(g, i))
          invariant elementMatched[ilhs] <==> IntoBelow(g, ilhs, irhs)
          invariant forall j :: 0 <= j < matrix.numMatchers ==>
                      (matcherMatched[j] <==> FromBelow(g, if j < irhs then ilhs + 1 else ilhs, j))
        {
          var matched := matrix.HasEdge(ilhs, irhs);
          BelowNext(g, ilhs, irhs);
          elementMatched[ilhs] := elementMatched[ilhs] || matched;
          matcherMatched[irhs] := matcherMatched[irhs] || matched;
          irhs := irhs + 1;
        }
        ilhs := ilhs + 1;
      }
    }

    method FindPairing(matrix: MatchMatrix) returns (paired: bool)
      requires matrix.Valid()
      ensures paired <==> PairingExists(matrix.ToGraph(), superset, subset)
    {
      var matches := MaxBipartiteMatch.FindMaxBipartiteMatching(matrix);
      PairingIffSizes(matrix.ToGraph(), matches, superset, subset);
      var maxFlow := |matches|;
      if superset && maxFlow < matrix.numMatchers {
        return false;
      }
      if subset && maxFlow < matrix.numElements {
        return false;
      }
      return true;
    }

    /** The matcher itself, from the connectivity matrix on: the quick checks in front of FindPairing
        never change the verdict. */
    method MatchAndExplain(matrix: MatchMatrix) returns (matches: bool)
      requires matrix.Valid()
      ensures matches <==> PairingExists(matrix.ToGraph(), superset, subset)
    {
      ghost var g := matrix.ToGraph();
      PairingTouches(g, superset, subset);
      if matrix.numElements == 0 && matrix.numMatchers == 0 {
        assert IsMatching(g, []) && CoversRight(g, []) && CoversLeft(g, []);
        return true;
      }
      if superset && subset {
        if matrix.numElements != matrix.numMatchers {
          return false;
        }
      }
      matches := VerifyMatchMatrix(matrix);
      if matches {
        matches := FindPairing(matrix);
      }
    }
  }

  /** Some edge leads to right node j from one of the first n left nodes. */
  ghost predicate FromBelow(g: Graph, n: nat, j: int) {
    exists i :: 0 <= i < n && (i, j) in g.edges
  }

  /** Some edge leads from left node i to one of the first n right nodes. */
  ghost predicate IntoBelow(g: Graph, i: int, n: nat) {
    exists j :: 0 <= j < n && (i, j) in g.edges
  }

  lemma BelowNext(g: Graph, i: nat, j: nat)
    ensures FromBelow(g, i + 1, j) <==> FromBelow(g, i, j) || (i, j) in g.edges
    ensures IntoBelow(g, i, j + 1) <==> IntoBelow(g, i, j) || (i, j) in g.edges
  {
  }

  ghost predicate RightTouched(g: Graph, j: int) {
    FromBelow(g, g.lhs, j)
  }

  ghost predicate LeftTouched(g: Graph, i: int) {
    IntoBelow(g, i, g.rhs)
  }

  /** Which side each flag is about: with one matcher and no element only Superset fails, and with one
      element and no matcher only Subset. */
  lemma FlagsMean(superset: bool, subset: bool)
    ensures PairingExists(Graph(0, 1, {}), superset, subset) <==> !superset
    ensures PairingExists(Graph(1, 0, {}), superset, subset) <==> !subset
  {
    var noElement, noMatcher := Graph(0, 1, {}), Graph(1, 0, {});
    MaximumIsEmpty(noElement);
    MaximumIsEmpty(noMatcher);
    PairingIffSizes(noElement, [], superset, subset);
    PairingIffSizes(noMatcher, [], superset, subset);
  }

  lemma MaximumIsEmpty(g: Graph)
    requires InRange(g) && (g.lhs == 0 || g.rhs == 0)
    ensures IsMaximum(g, [])
  {
    forall q | IsMatching(g, q) ensures |q| <= 0 {
      MatchingAtMost(g, q);
    }
  }

  /** A required pairing exists exactly when a maximum matching is as large as each required side. */
  lemma PairingIffSizes(g: Graph, best: Pairs, superset: bool, subset: bool)
    requires InRange(g) && IsMaximum(g, best)
    ensures PairingExists(g, superset, subset) <==>
            (superset ==> |best| >= g.rhs) && (subset ==> |best| >= g.lhs)
  {
    CoversIffFull(g, best);
    MatchingAtMost(g, best);
    if PairingExists(g, superset, subset) {
      var q :| IsMatching(g, q) && (superset ==> CoversRight(g, q)) && (subset ==> CoversLeft(g, q));
      CoversIffFull(g, q);
    }
  }

  /** What the quick checks rely on: a required pairing touches every node of a required side, and
      under both flags the sides have equal size. */
  lemma PairingTouches(g: Graph, superset: bool, subset: bool)
    requires InRange(g)
    ensures PairingExists(g, superset, subset) && superset ==> forall j :: 0 <= j < g.rhs ==> RightTouched(g, j)
    ensures PairingExists(g, superset, subset) && subset ==> forall i :: 0 <= i < g.lhs ==> LeftTouched(g, i)
    ensures PairingExists(g, superset, subset) && superset && subset ==> g.lhs == g.rhs
  {
    if PairingExists(g, superset, subset) {
      var q :| IsMatching(g, q) && (superset ==> CoversRight(g, q)) && (subset ==> CoversLeft(g, q));
      CoversIffFull(g, q);
      if superset {
        forall j | 0 <= j < g.rhs ensures RightTouched(g, j) {
          assert j in Rights(q);
          var k :| 0 <= k < |q| && Rights(q)[k] == j;
          assert q[k] in g.edges;
        }
      }
      if subset {
        forall i | 0 <= i < g.lhs ensures LeftTouched(g, i) {
          assert i in Lefts(q);
          var k :| 0 <= k < |q| && Lefts(q)[k] == i;
          assert q[k] in g.edges;
        }
      }
    }
  }

  /** The exhaustive comparison of the tests: starting from the empty graph, NextGraph visits all
      graphs of one size, and on each the two algorithms find matchings of equal size. `visited` are
      the matrices in the order of their visit. */
  method Exhaustive(nlhs: nat, nrhs: nat) returns (allEqual: bool, visited: seq<seq<bool>>)
    ensures allEqual
    ensures |visited| == Pow2(nlhs * nrhs)
    ensures forall k :: 0 <= k < |visited| ==> |visited[k]| == nlhs * nrhs && Value(visited[k]) == k
  {
    var graph := new MatchMatrix(nlhs, nrhs);
    AllZeros(graph.matched);
    allEqual, visited := true, [];
    var more := true;
    while more
      invariant graph.Valid() && fresh(graph) && |graph.matched| == nlhs * nrhs
      invariant allEqual
      invariant more ==> Value(graph.matched) == |visited|
      invariant !more ==> |visited| == Pow2(nlhs * nrhs)
      invariant forall k :: 0 <= k < |visited| ==> |visited[k]| == nlhs * nrhs && Value(visited[k]) == k
      decreases more, Pow2(nlhs * nrhs) - |visited|
    {
      var byFlow := MaxBipartiteMatch.FindMaxBipartiteMatching(graph);
      var byBacktracking := BacktrackingMatch.FindBacktrackingMaxBPM(graph);
      allEqual := allEqual && |byFlow| == |byBacktracking|;
      visited := visited + [graph.matched];
      ValueBound(graph.matched);
      more := graph.NextGraph();
      ValueBound(graph.matched);
    }
  }

  /** The values 0, 1, ..., 2^n - 1 in that order leave no matrix of n entries out. */
  lemma EveryGraphVisitedOnce(visited: seq<seq<bool>>, n: nat, matched: seq<bool>)
    requires |visited| == Pow2(n) && |matched| == n
    requires forall k :: 0 <= k < |visited| ==> |visited[k]| == n && Value(visited[k]) == k
    ensures exists k :: 0 <= k < |visited| && visited[k] == matched
    ensures forall k, m :: 0 <= k < m < |visited| ==> visited[k] != visited[m]
  {
    ValueBound(matched);
    ValueInjective(visited[Value(matched)], matched);
  }
}
