/** The reference algorithm of the tests: a backtracking search over all matchings in increasing
    order of the right node, which stops early once every right node is matched. */
module BacktrackingMatch {
  import opened BipartiteMatching
  import opened MatchMatrices

  const UNUSED: int := -1

  /** A matching seen as a vector that gives each right node its left node or UNUSED. */
  ghost predicate IsAssignment(g: Graph, w: seq<int>) {
    && |w| == g.rhs
    && (forall j :: 0 <= j < |w| && w[j] != UNUSED ==> w[j] >= 0 && (w[j], j) in g.edges)
    && (forall j, k :: 0 <= j < k < |w| && w[j] != UNUSED ==> w[j] != w[k])
  }

  ghost function Assigned(w: seq<int>): (s: set<int>) {
    set j: int | 0 <= j < |w| && w[j] != UNUSED
  }

  /** w decides the first n right nodes as `used` does. */
  ghost predicate AgreesBelow(w: seq<int>, used: seq<int>, n: nat) {
    && n <= |w| == |used|
    && (forall j :: 0 <= j < n ==> w[j] == used[j])
  }

  /** No assignment that extends the first irhs decisions of `used` and does match irhs is larger
      than size. */
  ghost predicate Explored(g: Graph, used: seq<int>, irhs: nat, size: nat) {
    forall w :: IsAssignment(g, w) && irhs < |w| && AgreesBelow(w, used, irhs) && w[irhs] != UNUSED ==>
      |Assigned(w)| <= size
  }

  ghost predicate ExploredRange(g: Graph, used: seq<int>, from: nat, to: nat, size: nat) {
    forall m :: from <= m < to ==> Explored(g, used, m, size)
  }

  /** The same as Explored, but only for the partners of irhs below n. */
  ghost predicate ExploredPartners(g: Graph, used: seq<int>, irhs: nat, n: nat, size: nat) {
    forall w :: IsAssignment(g, w) && irhs < |w| && AgreesBelow(w, used, irhs) && 0 <= w[irhs] < n ==>
      |Assigned(w)| <= size
  }

  /** The three vectors hold one and the same matching, and it uses no right node from `from` on. */
  ghost predicate Holds(g: Graph, lhsUsed: seq<int>, rhsUsed: seq<int>, matches: Pairs, from: nat) {
    // written as a match so that proof obligations treat it as one fact
    match |lhsUsed| == g.lhs && from <= g.rhs && IsAssignment(g, rhsUsed)
    case false => false
    case true =>
      && IsMatching(g, matches)
      && (forall k :: 0 <= k < |matches| ==> matches[k].1 < from && rhsUsed[matches[k].1] == matches[k].0)
      && (forall i :: 0 <= i < |lhsUsed| && lhsUsed[i] != UNUSED ==>
            0 <= lhsUsed[i] < g.rhs && rhsUsed[lhsUsed[i]] == i)
      && (forall j :: 0 <= j < |rhsUsed| && rhsUsed[j] != UNUSED ==> rhsUsed[j] < g.lhs && lhsUsed[rhsUsed[j]] == j)
      && (forall j :: from <= j < |rhsUsed| ==> rhsUsed[j] == UNUSED)
      && |Assigned(rhsUsed)| == |matches|
  }

  class BacktrackingMaxBPMState {
    const graph: MatchMatrix
    var lhsUsed: seq<int>
    var rhsUsed: seq<int>
    var matches: Pairs
    var bestSoFar: Pairs

    constructor (graph: MatchMatrix)
      ensures this.graph == graph && bestSoFar == []
    {
      this.graph := graph;
      lhsUsed, rhsUsed, matches, bestSoFar := [], [], [], [];
    }

    ghost predicate Valid(from: nat)
      reads this, graph
    {
      && graph.Valid()
      && Holds(graph.ToGraph(), lhsUsed, rhsUsed, matches, from)
      && IsMatching(graph.ToGraph(), bestSoFar)
      && |matches| <= |bestSoFar|
    }

    method PushMatch(lhs: nat, rhs: nat)
      requires Valid(rhs) && lhs < graph.numElements && rhs < graph.numMatchers
      requires (lhs, rhs) in graph.ToGraph().edges && lhsUsed[lhs] == UNUSED
      modifies this`lhsUsed, this`rhsUsed, this`matches, this`bestSoFar
      ensures Valid(rhs + 1)
      ensures matches == old(matches) + [(lhs, rhs)]
      ensures lhsUsed == old(lhsUsed)[lhs := rhs] && rhsUsed == old(rhsUsed)[rhs := lhs]
      ensures bestSoFar == if |matches| > old(|bestSoFar|) then matches else old(bestSoFar)
    {
      HoldsPush(graph.ToGraph(), lhsUsed, rhsUsed, matches, lhs, rhs);
      matches := matches + [(lhs, rhs)];
      lhsUsed := lhsUsed[lhs := rhs];
      rhsUsed := rhsUsed[rhs := lhs];
      if |matches| > |bestSoFar| {
        bestSoFar := matches;
      }
    }

    method PopMatch()
      requires |matches| > 0 && matches[|matches| - 1].0 < |lhsUsed| && matches[|matches| - 1].1 < |rhsUsed|
      modifies this`lhsUsed, this`rhsUsed, this`matches
      ensures matches == old(matches[..|matches| - 1])
      ensures lhsUsed == old(lhsUsed[matches[|matches| - 1].0 := UNUSED])
      ensures rhsUsed == old(rhsUsed[matches[|matches| - 1].1 := UNUSED])
    {
      var back := matches[|matches| - 1];
      lhsUsed := lhsUsed[back.0 := UNUSED];
      rhsUsed := rhsUsed[back.1 := UNUSED];
      matches := matches[..|matches| - 1];
    }

    /** Tries every partner of irhs together with everything that can follow it. Returns false,
        leaving the state as it stands, as soon as all right nodes are matched at once. */
    method RecurseInto(irhs: nat) returns (goOn: bool)
      requires irhs < graph.numMatchers && Valid(irhs) && |bestSoFar| < graph.numMatchers
      modifies this`lhsUsed, this`rhsUsed, this`matches, this`bestSoFar
      ensures graph.Valid() && IsMatching(graph.ToGraph(), bestSoFar) && |bestSoFar| >= old(|bestSoFar|)
      ensures goOn ==> |bestSoFar| < graph.numMatchers
      ensures goOn ==> matches == old(matches) && lhsUsed == old(lhsUsed) && rhsUsed == old(rhsUsed)
      ensures goOn ==> Explored(graph.ToGraph(), rhsUsed, irhs, |bestSoFar|)
      ensures !goOn ==> |bestSoFar| == graph.numMatchers
      decreases graph.numMatchers - irhs, 1
    {
      if rhsUsed[irhs] != UNUSED {
        return true;
      }
      ghost var g, used := graph.ToGraph(), rhsUsed;
      var ilhs := 0;
      while ilhs < graph.numElements
        invariant 0 <= ilhs <= graph.numElements
        invariant IsMatching(g, bestSoFar) && old(|bestSoFar|) <= |bestSoFar| < graph.numMatchers
        invariant matches == old(matches) && lhsUsed == old(lhsUsed) && rhsUsed == used
        invariant ExploredPartners(g, used, irhs, ilhs, |bestSoFar|)
      {
        var edge := graph.HasEdge(ilhs, irhs);
        if lhsUsed[ilhs] == UNUSED && edge {
          var more := TryPartner(ilhs, irhs);
          if !more { return false; }
        } else {
          PartnerSkipped(g, lhsUsed, used, matches, irhs, ilhs, |bestSoFar|);
        }
        ilhs := ilhs + 1;
      }
      AllPartners(g, used, irhs, |bestSoFar|);
      return true;
    }

    /** The body of the loop of RecurseInto for a free left node with an edge to irhs. */
    method TryPartner(ilhs: nat, irhs: nat) returns (goOn: bool)
      requires irhs < graph.numMatchers && Valid(irhs) && |bestSoFar| < graph.numMatchers
      requires ilhs < graph.numElements && (ilhs, irhs) in graph.ToGraph().edges && lhsUsed[ilhs] == UNUSED
      requires ExploredPartners(graph.ToGraph(), rhsUsed, irhs, ilhs, |bestSoFar|)
      modifies this`lhsUsed, this`rhsUsed, this`matches, this`bestSoFar
      ensures graph.Valid() && IsMatching(graph.ToGraph(), bestSoFar) && |bestSoFar| >= old(|bestSoFar|)
      ensures goOn ==> |bestSoFar| < graph.numMatchers
      ensures goOn ==> matches == old(matches) && lhsUsed == old(lhsUsed) && rhsUsed == old(rhsUsed)
      ensures goOn ==> ExploredPartners(graph.ToGraph(), rhsUsed, irhs, ilhs + 1, |bestSoFar|)
      ensures !goOn ==> |bestSoFar| == graph.numMatchers
      decreases graph.numMatchers - irhs, 0
    {
      hide Holds, IsAssignment, Explored, ExploredPartners, IsMatching, MatchMatrix.ToGraph;
      ghost var g, used, size0 := graph.ToGraph(), rhsUsed, |bestSoFar|;
      FreeNode(g, lhsUsed, used, matches, irhs);
      PushMatch(ilhs, irhs);
      MatchingAtMost(g, bestSoFar);
      if |bestSoFar| == graph.numMatchers {
        return false;
      }
      ghost var matches1, lhsUsed1, used1 := matches, lhsUsed, rhsUsed;
      var mi := irhs + 1;
      while mi < graph.numMatchers
        invariant irhs < mi <= graph.numMatchers
        invariant IsMatching(g, bestSoFar) && size0 <= |bestSoFar| < graph.numMatchers
        invariant |matches1| <= |bestSoFar|
        invariant matches == matches1 && lhsUsed == lhsUsed1 && rhsUsed == used1
        invariant ExploredRange(g, used1, irhs + 1, mi, |bestSoFar|)
      {
        HoldsLater(g, lhsUsed1, used1, matches1, irhs + 1, mi);
        ghost var size := |bestSoFar|;
        var more := RecurseInto(mi);
        if !more { return false; }
        ExploredNext(g, used1, irhs + 1, mi, size, |bestSoFar|);
        mi := mi + 1;
      }
      PartnerDone(g, used, lhsUsed1, used1, matches1, irhs, ilhs, size0, |bestSoFar|);
      PopUndoesPush(old(lhsUsed), used, old(matches), ilhs, irhs);
      PopMatch();
      return true;
    }

    method Compute() returns (result: Pairs)
      requires graph.Valid() && bestSoFar == []
      modifies this`lhsUsed, this`rhsUsed, this`matches, this`bestSoFar
      ensures IsMaximum(graph.ToGraph(), result)
    {
      ghost var g := graph.ToGraph();
      if graph.numElements == 0 || graph.numMatchers == 0 {
        forall q | IsMatching(g, q) ensures |q| <= 0 { MatchingAtMost(g, q); }
        return bestSoFar;
      }
      lhsUsed := seq(graph.numElements, _ => UNUSED);
      rhsUsed := seq(graph.numMatchers, _ => UNUSED);
      ghost var blank := rhsUsed;
      assert Assigned(blank) == {};
      var irhs := 0;
      while irhs < graph.numMatchers
        invariant 0 <= irhs <= graph.numMatchers
        invariant |bestSoFar| < graph.numMatchers && IsMatching(g, bestSoFar)
        invariant rhsUsed == blank && lhsUsed == seq(graph.numElements, _ => UNUSED)
        invariant ExploredRange(g, blank, 0, irhs, |bestSoFar|)
      {
        matches := [];
        ghost var size := |bestSoFar|;
        var goOn := RecurseInto(irhs);
        if |bestSoFar| == graph.numMatchers {
          forall q | IsMatching(g, q) ensures |q| <= |bestSoFar| { MatchingAtMost(g, q); }
          return bestSoFar;
        }
        ExploredNext(g, blank, 0, irhs, size, |bestSoFar|);
        irhs := irhs + 1;
      }
      forall q | IsMatching(g, q) ensures |q| <= |bestSoFar| {
        var w := ToAssignment(g, q);
        FirstLater(g, w, blank, 0, |bestSoFar|);
      }
      return bestSoFar;
    }
  }

  lemma FreeNode(g: Graph, lhsUsed: seq<int>, rhsUsed: seq<int>, matches: Pairs, irhs: nat)
    requires Holds(g, lhsUsed, rhsUsed, matches, irhs) && irhs < g.rhs
    ensures |lhsUsed| == g.lhs && |rhsUsed| == g.rhs && rhsUsed[irhs] == UNUSED
  {
  }

  lemma HoldsLater(g: Graph, lhsUsed: seq<int>, rhsUsed: seq<int>, matches: Pairs, from: nat, later: nat)
    requires Holds(g, lhsUsed, rhsUsed, matches, from) && from <= later <= g.rhs
    ensures Holds(g, lhsUsed, rhsUsed, matches, later)
  {
  }

  /** An assignment that agrees with `used` below n either stops there or goes on at some first
      right node, which is one of the explored ones. */
  lemma FirstLater(g: Graph, w: seq<int>, used: seq<int>, n: nat, size: nat)
    requires IsAssignment(g, w) && AgreesBelow(w, used, n)
    requires forall j :: n <= j < |used| ==> used[j] == UNUSED
    requires |Assigned(used)| <= size
    requires ExploredRange(g, used, n, |used|, size)
    ensures |Assigned(w)| <= size
    decreases |w| - n
  {
    if n == |w| {
      assert w == used;
    } else if w[n] != UNUSED {
      assert Explored(g, used, n, size);
    } else {
      FirstLater(g, w, used, n + 1, size);
    }
  }

  lemma ExploredNext(g: Graph, used: seq<int>, from: nat, mi: nat, size: nat, size': nat)
    requires ExploredRange(g, used, from, mi, size) && size <= size' && Explored(g, used, mi, size')
    ensures ExploredRange(g, used, from, mi + 1, size')
  {
    forall m | from <= m < mi + 1 ensures Explored(g, used, m, size') {
      assert m < mi ==> Explored(g, used, m, size);
    }
  }

  /** ilhs was pushed and everything after it explored. */
  lemma PartnerDone(g: Graph, used: seq<int>, lhsUsed1: seq<int>, used1: seq<int>, matches1: Pairs,
                    irhs: nat, ilhs: nat, size0: nat, size: nat)
    requires irhs < |used| == g.rhs && used1 == used[irhs := ilhs] && size0 <= size
    requires Holds(g, lhsUsed1, used1, matches1, irhs + 1) && |matches1| <= size
    requires ExploredPartners(g, used, irhs, ilhs, size0)
    requires ExploredRange(g, used1, irhs + 1, g.rhs, size)
    ensures ExploredPartners(g, used, irhs, ilhs + 1, size)
  {
    forall w | IsAssignment(g, w) && AgreesBelow(w, used, irhs) && 0 <= w[irhs] < ilhs + 1
      ensures |Assigned(w)| <= size
    {
      if w[irhs] == ilhs {
        FirstLater(g, w, used1, irhs + 1, size);
      }
    }
  }

  lemma PartnerSkipped(g: Graph, lhsUsed: seq<int>, rhsUsed: seq<int>, matches: Pairs,
                       irhs: nat, ilhs: nat, size: nat)
    requires Holds(g, lhsUsed, rhsUsed, matches, irhs) && irhs < g.rhs && ilhs < g.lhs
    requires lhsUsed[ilhs] != UNUSED || (ilhs, irhs) !in g.edges
    requires ExploredPartners(g, rhsUsed, irhs, ilhs, size)
    ensures ExploredPartners(g, rhsUsed, irhs, ilhs + 1, size)
  {
    forall w | IsAssignment(g, w) && AgreesBelow(w, rhsUsed, irhs) && 0 <= w[irhs] < ilhs + 1
      ensures |Assigned(w)| <= size
    {
      NotPartner(g, lhsUsed, rhsUsed, matches, irhs, ilhs, w);
    }
  }

  /** A left node that is taken, or that has no edge to irhs, is the partner of irhs in no
      assignment that agrees with the current one. */
  lemma NotPartner(g: Graph, lhsUsed: seq<int>, rhsUsed: seq<int>, matches: Pairs,
                   irhs: nat, ilhs: nat, w: seq<int>)
    requires Holds(g, lhsUsed, rhsUsed, matches, irhs) && irhs < g.rhs && ilhs < g.lhs
    requires lhsUsed[ilhs] != UNUSED || (ilhs, irhs) !in g.edges
    requires IsAssignment(g, w) && AgreesBelow(w, rhsUsed, irhs)
    ensures w[irhs] != ilhs
  {
    if lhsUsed[ilhs] != UNUSED {
      assert w[lhsUsed[ilhs]] == ilhs;
    }
  }

  lemma AllPartners(g: Graph, used: seq<int>, irhs: nat, size: nat)
    requires InRange(g) && ExploredPartners(g, used, irhs, g.lhs, size)
    ensures Explored(g, used, irhs, size)
  {
    forall w | IsAssignment(g, w) && irhs < |w| && AgreesBelow(w, used, irhs) && w[irhs] != UNUSED
      ensures |Assigned(w)| <= size
    {
      assert (w[irhs], irhs) in g.edges;
    }
  }

  lemma PopUndoesPush(lhsUsed: seq<int>, rhsUsed: seq<int>, matches: Pairs, lhs: nat, rhs: nat)
    requires lhs < |lhsUsed| && rhs < |rhsUsed| && lhsUsed[lhs] == UNUSED && rhsUsed[rhs] == UNUSED
    ensures var pushed := matches + [(lhs, rhs)];
            && pushed[|pushed| - 1] == (lhs, rhs) && pushed[..|pushed| - 1] == matches
            && lhsUsed[lhs := rhs][lhs := UNUSED] == lhsUsed
            && rhsUsed[rhs := lhs][rhs := UNUSED] == rhsUsed
  {
  }

  lemma HoldsPush(g: Graph, lhsUsed: seq<int>, rhsUsed: seq<int>, matches: Pairs, lhs: nat, rhs: nat)
    requires Holds(g, lhsUsed, rhsUsed, matches, rhs)
    requires lhs < g.lhs && rhs < g.rhs && (lhs, rhs) in g.edges && lhsUsed[lhs] == UNUSED
    ensures Holds(g, lhsUsed[lhs := rhs], rhsUsed[rhs := lhs], matches + [(lhs, rhs)], rhs + 1)
  {
    assert Assigned(rhsUsed[rhs := lhs]) == Assigned(rhsUsed) + {rhs};
    assert forall k :: 0 <= k < |matches| ==> matches[k].0 != lhs && matches[k].1 != rhs;
  }

  /** Every matching is some assignment of the same size. */
  lemma {:induction false} ToAssignment(g: Graph, q: Pairs) returns (w: seq<int>)
    requires InRange(g) && IsMatching(g, q)
    ensures IsAssignment(g, w) && |Assigned(w)| == |q| && UsesOnly(w, q)
  {
    if q == [] {
      w := seq(g.rhs, _ => UNUSED);
      assert Assigned(w) == {};
    } else {
      var n := |q| - 1;
      var v := ToAssignment(g, q[..n]);
      assert q[n] in g.edges;
      AssignOne(g, v, q[..n], q[n].0, q[n].1);
      w := v[q[n].1 := q[n].0];
      assert UsesOnly(v, q);
    }
  }

  ghost predicate UsesOnly(w: seq<int>, q: Pairs) {
    forall j :: 0 <= j < |w| && w[j] != UNUSED ==>
      (exists k :: 0 <= k < |q| && q[k].1 == j) && (exists k :: 0 <= k < |q| && q[k].0 == w[j])
  }

  lemma AssignOne(g: Graph, v: seq<int>, q: Pairs, i: nat, j: nat)
    requires IsAssignment(g, v) && UsesOnly(v, q) && (i, j) in g.edges && j < |v|
    requires forall k :: 0 <= k < |q| ==> q[k].0 != i && q[k].1 != j
    ensures IsAssignment(g, v[j := i]) && |Assigned(v[j := i])| == |Assigned(v)| + 1
  {
    assert Assigned(v[j := i]) == Assigned(v) + {j};
    assert v[j] == UNUSED;
  }

  method FindBacktrackingMaxBPM(g: MatchMatrix) returns (result: Pairs)
    requires g.Valid()
    ensures IsMaximum(g.ToGraph(), result)
  {
    var state := new BacktrackingMaxBPMState(g);
    result := state.Compute();
  }
}
