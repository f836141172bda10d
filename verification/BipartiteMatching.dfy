/** Bipartite graphs and matchings as mathematical values, with no search algorithm in them.
    A left node is an element of a container, a right node is a matcher. */
module BipartiteMatching {

  /** An ElementMatcherPairs vector: the edges {left, right} of a match. */
  type Pairs = seq<(nat, nat)>

  datatype Graph = Graph(lhs: nat, rhs: nat, edges: set<(nat, nat)>)

  ghost predicate InRange(g: Graph) {
    forall e :: e in g.edges ==> e.0 < g.lhs && e.1 < g.rhs
  }

  /** Every pair is an edge, and no node of either side is used twice. */
  ghost predicate IsMatching(g: Graph, q: Pairs) {
    && (forall k :: 0 <= k < |q| ==> q[k] in g.edges)
    && (forall k, m :: 0 <= k < m < |q| ==> q[k].0 != q[m].0 && q[k].1 != q[m].1)
  }

  ghost predicate IsMaximum(g: Graph, q: Pairs) {
    && IsMatching(g, q)
    && (forall p :: IsMatching(g, p) ==> |p| <= |q|)
  }

  ghost predicate Injective<T(!new)>(s: seq<T>) {
    forall k, m :: 0 <= k < m < |s| ==> s[k] != s[m]
  }

  function Lefts(q: Pairs): (s: seq<nat>) {
    seq(|q|, k requires 0 <= k < |q| => q[k].0)
  }

  function Rights(q: Pairs): (s: seq<nat>) {
    seq(|q|, k requires 0 <= k < |q| => q[k].1)
  }

  /** The node numbers of a side with n nodes. */
  ghost function Below(n: nat): (s: set<nat>)
    ensures forall i: nat :: i in s <==> i < n
    ensures |s| == n
  {
    if n == 0 then {} else Below(n - 1) + {n - 1}
  }

  /** Pigeonhole: a list without repetitions is no longer than a set it is drawn from. */
  lemma {:induction false} InjectiveFits<T(!new)>(s: seq<T>, room: set<T>)
    requires Injective(s)
    requires forall k :: 0 <= k < |s| ==> s[k] in room
    ensures |s| <= |room|
  {
    if s != [] {
      var n := |s| - 1;
      InjectiveFits(s[..n], room - {s[n]});
    }
  }

  /** ... and a list without repetitions of the full length misses nothing. */
  lemma InjectiveFills<T(!new)>(s: seq<T>, room: set<T>, x: T)
    requires Injective(s) && |s| == |room| && x in room
    requires forall k :: 0 <= k < |s| ==> s[k] in room
    ensures x in s
  {
    if x !in s {
      InjectiveFits(s, room - {x});
    }
  }

  lemma MatchingIsInjective(g: Graph, q: Pairs)
    requires IsMatching(g, q)
    ensures Injective(Lefts(q)) && Injective(Rights(q))
  {
  }

  lemma MatchingAtMost(g: Graph, q: Pairs)
    requires InRange(g) && IsMatching(g, q)
    ensures |q| <= g.lhs && |q| <= g.rhs
  {
    MatchingIsInjective(g, q);
    InjectiveFits(Lefts(q), Below(g.lhs));
    InjectiveFits(Rights(q), Below(g.rhs));
  }

  ghost predicate CoversLeft(g: Graph, q: Pairs) {
    forall i :: 0 <= i < g.lhs ==> i in Lefts(q)
  }

  ghost predicate CoversRight(g: Graph, q: Pairs) {
    forall j :: 0 <= j < g.rhs ==> j in Rights(q)
  }

  /** A matching covers a whole side exactly when it has as many pairs as that side has nodes. */
  lemma CoversIffFull(g: Graph, q: Pairs)
    requires InRange(g) && IsMatching(g, q)
    ensures CoversLeft(g, q) <==> |q| == g.lhs
    ensures CoversRight(g, q) <==> |q| == g.rhs
  {
    MatchingAtMost(g, q);
    MatchingIsInjective(g, q);
    CoversSide(Lefts(q), g.lhs);
    CoversSide(Rights(q), g.rhs);
  }

  lemma CoversSide(s: seq<nat>, n: nat)
    requires Injective(s) && forall k :: 0 <= k < |s| ==> s[k] < n
    ensures (forall i :: 0 <= i < n ==> i in s) <==> |s| == n
  {
    if |s| == n {
      forall i: nat | i < n ensures i in s {
        InjectiveFills(s, Below(n), i);
      }
    } else if forall i :: 0 <= i < n ==> i in s {
      var used := set k | 0 <= k < |s| :: s[k];
      forall i | i in Below(n) ensures i in used {
        assert i in s;
      }
      SetFromSeqSize(s);
      SubsetSize(Below(n), used);
      InjectiveFits(s, Below(n));
    }
  }

  lemma {:induction false} SetFromSeqSize<T>(s: seq<T>)
    ensures |set k | 0 <= k < |s| :: s[k]| <= |s|
  {
    var all := set k | 0 <= k < |s| :: s[k];
    if s != [] {
      var n := |s| - 1;
      SetFromSeqSize(s[..n]);
      var front := set k | 0 <= k < n :: s[..n][k];
      assert all == front + {s[n]};
    }
  }

  lemma {:induction false} SubsetSize<T>(a: set<T>, b: set<T>)
    requires a <= b
    ensures |a| <= |b|
  {
    if a != {} {
      var x :| x in a;
      SubsetSize(a - {x}, b - {x});
    }
  }
}
